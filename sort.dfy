/**
 * The sort of the add path: value.sort(comparator) on a fresh array. The
 * engine's sort is stable, so it is modelled as an insertion sort; the
 * lemmas at the end show that a sorted, stable rearrangement is unique, so
 * no other stable algorithm could give a different array.
 */
module SpanSort {
  import opened Spans

  /** Inserts x into s behind every trailing entry the comparator places
      after x: the step of a stable insertion sort. */
  function Insert<P>(s: seq<Span<P>>, x: Span<P>): seq<Span<P>>
    decreases |s|
  {
    if s == [] || Compare(s[|s| - 1], x) <= 0 then s + [x]
    else Insert(s[..|s| - 1], x) + [s[|s| - 1]]
  }

  /** Where Insert puts x: after a prefix whose last entry is not after x,
      before a suffix of entries that all come strictly after x. */
  function InsertPos<P>(s: seq<Span<P>>, x: Span<P>): (k: nat)
    ensures k <= |s|
    ensures k > 0 ==> Compare(s[k - 1], x) <= 0
    ensures forall i :: k <= i < |s| ==> Compare(x, s[i]) < 0
    decreases |s|
  {
    if s == [] || Compare(s[|s| - 1], x) <= 0 then |s|
    else
      CompareAntisymmetric(x, s[|s| - 1]);
      InsertPos(s[..|s| - 1], x)
  }

  /** The array value.sort leaves behind, as a function of what it was given. */
  function StableSort<P>(s: seq<Span<P>>): seq<Span<P>>
    decreases |s|
  {
    if s == [] then [] else Insert(StableSort(s[..|s| - 1]), s[|s| - 1])
  }

  /** A sorted rearrangement of s that keeps the entries of each interval in
      the order s holds them. */
  ghost predicate IsStableSortOf<P>(r: seq<Span<P>>, s: seq<Span<P>>) {
    Sorted(r) && forall k :: Filter(r, k) == Filter(s, k)
  }

  /** Insert(s, x) is s with x slotted in between a prefix whose last entry
      is not after x and a suffix whose entries all come after x. */
  lemma InsertSplit<P>(s: seq<Span<P>>, x: Span<P>) returns (pre: seq<Span<P>>, post: seq<Span<P>>)
    ensures s == pre + post && Insert(s, x) == pre + [x] + post
    ensures pre != [] ==> Compare(pre[|pre| - 1], x) <= 0
    ensures forall i :: 0 <= i < |post| ==> Compare(x, post[i]) < 0
  {
    var k := InsertPos(s, x);
    InsertAt(s, k, x);
    pre, post := s[..k], s[k..];
    assert s == pre + post;
  }

  lemma SortedAround<P>(pre: seq<Span<P>>, x: Span<P>, post: seq<Span<P>>)
    requires Sorted(pre + post)
    requires pre != [] ==> Compare(pre[|pre| - 1], x) <= 0
    requires forall i :: 0 <= i < |post| ==> Compare(x, post[i]) < 0
    ensures Sorted(pre + [x] + post)
  {
    var s, r := pre + post, pre + [x] + post;
    var k := |pre|;
    assert forall i :: 0 <= i < |r| ==> r[i] == if i < k then s[i] else if i == k then x else s[i - 1];
    forall i, j | 0 <= i < j < |r| ensures Compare(r[i], r[j]) <= 0 {
      if j < k {
        assert Compare(s[i], s[j]) <= 0;
      } else if j == k {
        if i < k - 1 {
          assert Compare(s[i], s[k - 1]) <= 0;
          CompareTransitive(s[i], s[k - 1], x);
        }
      } else if i < k {
        assert Compare(s[i], s[j - 1]) <= 0;
      } else if i == k {
        assert s[j - 1] == post[j - k - 1];
      } else {
        assert Compare(s[i - 1], s[j - 1]) <= 0;
      }
    }
  }

  lemma InsertSorted<P>(s: seq<Span<P>>, x: Span<P>)
    requires Sorted(s)
    ensures Sorted(Insert(s, x))
  {
    var pre, post := InsertSplit(s, x);
    SortedAround(pre, x, post);
  }

  lemma MultisetAround<P>(pre: seq<Span<P>>, x: Span<P>, post: seq<Span<P>>)
    ensures multiset(pre + [x] + post) == multiset(pre + post) + multiset{x}
  {
  }

  lemma InsertMultiset<P>(s: seq<Span<P>>, x: Span<P>)
    ensures multiset(Insert(s, x)) == multiset(s) + multiset{x}
  {
    var pre, post := InsertSplit(s, x);
    MultisetAround(pre, x, post);
  }

  lemma FilterSkip<P>(pre: seq<Span<P>>, x: Span<P>, post: seq<Span<P>>, k: Key)
    requires KeyOf(x) != k
    ensures Filter([x], k) == []
    ensures Filter(pre + [x] + post, k) == Filter(pre + post, k)
  {
    FilterAppend(pre + [x], post, k);
    FilterAppend(pre, [x], k);
    FilterAppend(pre, post, k);
    assert [x][..0] == [];
  }

  lemma FilterKeep<P>(pre: seq<Span<P>>, x: Span<P>, post: seq<Span<P>>, k: Key)
    requires KeyOf(x) == k
    requires forall i :: 0 <= i < |post| ==> KeyOf(post[i]) != k
    ensures Filter([x], k) == [x]
    ensures Filter(pre + [x] + post, k) == Filter(pre + post, k) + [x]
  {
    FilterAppend(pre + [x], post, k);
    FilterAppend(pre, [x], k);
    FilterAppend(pre, post, k);
    FilterNone(post, k);
    assert [x][..0] == [];
  }

  /** Inserting x adds x behind the other entries with its interval. */
  lemma InsertFilter<P>(s: seq<Span<P>>, x: Span<P>, k: Key)
    ensures Filter(Insert(s, x), k) == Filter(s, k) + Filter([x], k)
  {
    var pre, post := InsertSplit(s, x);
    if KeyOf(x) == k {
      forall i | 0 <= i < |post| ensures KeyOf(post[i]) != k {
        assert Compare(x, post[i]) < 0;
      }
      FilterKeep(pre, x, post, k);
    } else {
      FilterSkip(pre, x, post, k);
    }
  }

  /** The sort's result is ascending by (start, end), whatever it was given. */
  lemma {:induction false} StableSortSorted<P>(s: seq<Span<P>>)
    ensures Sorted(StableSort(s))
    decreases |s|
  {
    if s != [] {
      StableSortSorted(s[..|s| - 1]);
      InsertSorted(StableSort(s[..|s| - 1]), s[|s| - 1]);
    }
  }

  /** The sort's result is a permutation of what it was given. */
  lemma {:induction false} StableSortMultiset<P>(s: seq<Span<P>>)
    ensures multiset(StableSort(s)) == multiset(s)
    ensures |StableSort(s)| == |s|
    decreases |s|
  {
    if s != [] {
      StableSortMultiset(s[..|s| - 1]);
      InsertMultiset(StableSort(s[..|s| - 1]), s[|s| - 1]);
      assert s == s[..|s| - 1] + [s[|s| - 1]];
    }
    assert |multiset(StableSort(s))| == |StableSort(s)|;
  }

  /** The sort is stable: entries with the same interval keep their order. */
  lemma {:induction false} StableSortFilter<P>(s: seq<Span<P>>, k: Key)
    ensures Filter(StableSort(s), k) == Filter(s, k)
    decreases |s|
  {
    if s != [] {
      var s' := s[..|s| - 1];
      StableSortFilter(s', k);
      InsertFilter(StableSort(s'), s[|s| - 1], k);
      FilterAppend(s', [s[|s| - 1]], k);
      assert s == s' + [s[|s| - 1]];
    }
  }

  lemma FilterLast<P>(s: seq<Span<P>>)
    requires s != []
    ensures Filter(s, KeyOf(s[|s| - 1])) == Filter(s[..|s| - 1], KeyOf(s[|s| - 1])) + [s[|s| - 1]]
  {
  }

  lemma FilterDropLast<P>(s: seq<Span<P>>, k: Key)
    requires s != [] && KeyOf(s[|s| - 1]) != k
    ensures Filter(s, k) == Filter(s[..|s| - 1], k)
  {
  }

  /** In a sorted sequence, an entry with interval k comes no later than the
      last entry. */
  lemma SortedBeforeLast<P>(s: seq<Span<P>>, x: Span<P>)
    requires Sorted(s) && s != [] && x in s
    ensures Compare(x, s[|s| - 1]) <= 0
  {
    var i :| 0 <= i < |s| && s[i] == x;
    if i < |s| - 1 {
      assert Compare(s[i], s[|s| - 1]) <= 0;
    }
  }

  /** An interval that occurs in a sorted sequence is not after its last entry. */
  lemma OccursBeforeLast<P>(r: seq<Span<P>>, x: Span<P>)
    requires Sorted(r) && r != [] && Filter(r, KeyOf(x)) != []
    ensures Compare(x, r[|r| - 1]) <= 0
  {
    var y := Filter(r, KeyOf(x))[0];
    FilterMember(r, KeyOf(x), y);
    SortedBeforeLast(r, y);
    CompareIgnoresPayload(x, y, r[|r| - 1], r[|r| - 1]);
  }

  /** Two sorted sequences with the same entries per interval end in
      entries with the same interval. */
  lemma LastKeysAgree<P>(p1: seq<Span<P>>, a: Span<P>, p2: seq<Span<P>>, b: Span<P>)
    requires Sorted(p1 + [a]) && Sorted(p2 + [b])
    requires Filter(p1 + [a], KeyOf(a)) == Filter(p2 + [b], KeyOf(a))
    requires Filter(p1 + [a], KeyOf(b)) == Filter(p2 + [b], KeyOf(b))
    ensures KeyOf(a) == KeyOf(b)
  {
    FilterLast(p1 + [a]);
    assert (p1 + [a])[..|p1|] == p1;
    FilterLast(p2 + [b]);
    assert (p2 + [b])[..|p2|] == p2;
    OccursBeforeLast(p2 + [b], a);
    OccursBeforeLast(p1 + [a], b);
  }

  /** ... and then in the same entry, with the same entries per interval
      before it. */
  lemma PrefixFiltersAgree<P>(p1: seq<Span<P>>, a: Span<P>, p2: seq<Span<P>>, b: Span<P>)
    requires KeyOf(a) == KeyOf(b)
    requires forall k :: Filter(p1 + [a], k) == Filter(p2 + [b], k)
    ensures a == b
    ensures forall k :: Filter(p1, k) == Filter(p2, k)
  {
    var ka := KeyOf(a);
    FilterLast(p1 + [a]);
    assert (p1 + [a])[..|p1|] == p1;
    FilterLast(p2 + [b]);
    assert (p2 + [b])[..|p2|] == p2;
    assert Filter(p1, ka) + [a] == Filter(p2, ka) + [b];
    assert a == (Filter(p1, ka) + [a])[|Filter(p1, ka)|];
    forall k ensures Filter(p1, k) == Filter(p2, k) {
      if k == ka {
        assert Filter(p1, k) == (Filter(p1, ka) + [a])[..|Filter(p1, ka)|];
      } else {
        FilterDropLast(p1 + [a], k);
        FilterDropLast(p2 + [b], k);
      }
    }
  }

  lemma EmptyFilters<P>(r1: seq<Span<P>>, r2: seq<Span<P>>)
    requires r1 == [] || r2 == []
    requires forall k :: Filter(r1, k) == Filter(r2, k)
    ensures r1 == r2
  {
    if r1 != [] {
      FilterLast(r1);
    } else if r2 != [] {
      FilterLast(r2);
    }
  }

  lemma SortedDropLast<P>(s: seq<Span<P>>)
    requires Sorted(s) && s != []
    ensures Sorted(s[..|s| - 1])
  {
  }

  /** Two sorted sequences that hold the same entries of each interval in
      the same order are equal. */
  lemma {:induction false} SortedFiltersDetermine<P>(r1: seq<Span<P>>, r2: seq<Span<P>>)
    requires Sorted(r1) && Sorted(r2)
    requires forall k :: Filter(r1, k) == Filter(r2, k)
    ensures r1 == r2
    decreases |r1| + |r2|
  {
    if r1 == [] || r2 == [] {
      EmptyFilters(r1, r2);
    } else {
      var p1, a := r1[..|r1| - 1], r1[|r1| - 1];
      var p2, b := r2[..|r2| - 1], r2[|r2| - 1];
      assert r1 == p1 + [a] && r2 == p2 + [b];
      LastKeysAgree(p1, a, p2, b);
      PrefixFiltersAgree(p1, a, p2, b);
      SortedDropLast(r1);
      SortedDropLast(r2);
      SortedFiltersDetermine(p1, p2);
    }
  }

  /** StableSort(s) is exactly the sorted, stable rearrangement of s. */
  lemma StableSortCharacterized<P>(s: seq<Span<P>>, r: seq<Span<P>>)
    ensures IsStableSortOf(r, s) <==> r == StableSort(s)
  {
    StableSortSorted(s);
    forall k ensures Filter(StableSort(s), k) == Filter(s, k) {
      StableSortFilter(s, k);
    }
    if IsStableSortOf(r, s) {
      SortedFiltersDetermine(r, StableSort(s));
    }
  }

  /** An already sorted input comes back unchanged. */
  lemma StableSortOfSorted<P>(s: seq<Span<P>>)
    requires Sorted(s)
    ensures StableSort(s) == s
  {
    StableSortCharacterized(s, s);
    assert IsStableSortOf(s, s);
  }

  /** Insert puts x at j when everything from j on comes strictly after x
      and the entry before j does not. */
  lemma {:induction false} InsertAt<P>(s: seq<Span<P>>, j: nat, x: Span<P>)
    requires j <= |s| && (j == 0 || Compare(s[j - 1], x) <= 0)
    requires forall m :: j <= m < |s| ==> Compare(x, s[m]) < 0
    ensures Insert(s, x) == s[..j] + [x] + s[j..]
    decreases |s|
  {
    if j == |s| {
      assert s[..j] == s && s[j..] == [];
    } else {
      var s' := s[..|s| - 1];
      CompareAntisymmetric(x, s[|s| - 1]);
      InsertAt(s', j, x);
      assert s'[..j] == s[..j];
      assert s'[j..] + [s[|s| - 1]] == s[j..];
    }
  }

  /** One step of the in-place sort: moves a[i] left past the entries of
      the sorted prefix a[..i] that come strictly after it. */
  method InsertInPlace<P>(a: array<Span<P>>, i: nat)
    requires i < a.Length
    modifies a
    ensures a[..i + 1] == Insert(old(a[..i]), old(a[i]))
    ensures a[i + 1..] == old(a[i + 1..])
  {
    ghost var done := a[..i];
    var x := a[i];
    var j := i;
    while j > 0 && Compare(a[j - 1], x) > 0
      invariant 0 <= j <= i
      invariant forall m :: 0 <= m < j ==> a[m] == done[m]
      invariant forall m :: j < m <= i ==> a[m] == done[m - 1]
      invariant forall m :: i < m < a.Length ==> a[m] == old(a[m])
      invariant forall m :: j <= m < i ==> Compare(x, done[m]) < 0
    {
      CompareAntisymmetric(a[j - 1], x);
      a[j] := a[j - 1];
      j := j - 1;
    }
    a[j] := x;
    InsertAt(done, j, x);
    assert a[..i + 1] == done[..j] + [x] + done[j..];
  }

  /** value.sort(comparator) over an array, in place. */
  method SortInPlace<P>(a: array<Span<P>>)
    modifies a
    ensures a[..] == StableSort(old(a[..]))
  {
    ghost var input := a[..];
    var i := 0;
    while i < a.Length
      invariant 0 <= i <= a.Length
      invariant a[..i] == StableSort(input[..i])
      invariant a[i..] == input[i..]
    {
      InsertInPlace(a, i);
      assert input[..i + 1][..i] == input[..i];
      i := i + 1;
    }
    assert input[..a.Length] == input;
  }
}
