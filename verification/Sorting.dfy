/** PartialSort and the standard algorithms it stands on (src/core/Utils.h:115-151). */
module Sorting {

  // A strict weak order on the elements of s: asymmetric, and negatively transitive.
  ghost predicate StrictWeakOrderOn<T(!new)>(less: (T, T) -> bool, s: seq<T>) {
    && (forall x, y :: x in s && y in s && less(x, y) ==> !less(y, x))
    && (forall x, y, z :: x in s && y in s && z in s && !less(x, y) && !less(y, z) ==> !less(x, z))
  }

  function KeptCount(requested: nat, available: nat): nat {
    if requested > 0 && available >= requested then requested else available
  }

  // The first `middle` elements of s[..end] are its smallest, in order: none later is less.
  ghost predicate FrontSorted<T>(less: (T, T) -> bool, s: seq<T>, middle: nat, end: nat) {
    middle <= end <= |s| && forall i, j :: 0 <= i < middle && i < j < end ==> !less(s[j], s[i])
  }

  // The one specification of PartialSort: an arrangement of the input whose front, which is kept, is sorted
  // and holds the smallest elements; what comes after is dropped.
  ghost predicate IsPartialSort<T>(less: (T, T) -> bool, input: seq<T>, requested: nat, arranged: seq<T>) {
    && multiset(arranged) == multiset(input) && |arranged| == |input|
    && FrontSorted(less, arranged, KeptCount(requested, |input|), |arranged|)
  }

  method IndexOfLeast<T(!new)>(less: (T, T) -> bool, a: array<T>, from: nat, end: nat) returns (m: nat)
    requires from < end <= a.Length && StrictWeakOrderOn(less, a[..])
    ensures from <= m < end && forall j :: from <= j < end ==> !less(a[j], a[m])
  {
    m := from;
    for i := from + 1 to end
      invariant from <= m < i
      invariant forall j :: from <= j < i ==> !less(a[j], a[m])
    {
      assert forall j :: 0 <= j < a.Length ==> a[j] in a[..];
      if less(a[i], a[m]) {
        m := i;
      }
    }
  }

  // Selection of the smallest elements, which all three standard algorithms below can be.
  method SelectSmallest<T(!new)>(less: (T, T) -> bool, a: array<T>, middle: nat, end: nat)
    requires middle <= end <= a.Length && StrictWeakOrderOn(less, a[..])
    modifies a
    ensures multiset(a[..]) == old(multiset(a[..])) && a[end..] == old(a[end..])
    ensures FrontSorted(less, a[..], middle, end)
  {
    for i := 0 to middle
      invariant multiset(a[..]) == old(multiset(a[..])) && a[end..] == old(a[end..])
      invariant FrontSorted(less, a[..], i, end)
    {
      SameElements(less, old(a[..]), a[..]);
      var m := IndexOfLeast(less, a, i, end);
      ghost var before := a[..];
      a[i], a[m] := a[m], a[i];
      assert a[..] == before[i := before[m]][m := before[i]];
      SwapExtendsFront(less, before, i, m, end);
    }
  }

  lemma SwapExtendsFront<T>(less: (T, T) -> bool, s: seq<T>, i: nat, m: nat, end: nat)
    requires FrontSorted(less, s, i, end) && i <= m < end
    requires forall j :: i <= j < end ==> !less(s[j], s[m])
    ensures var t := s[i := s[m]][m := s[i]];
            multiset(t) == multiset(s) && t[end..] == s[end..] && FrontSorted(less, t, i + 1, end)
  {
  }

  lemma SameElements<T(!new)>(less: (T, T) -> bool, s: seq<T>, t: seq<T>)
    requires multiset(s) == multiset(t) && StrictWeakOrderOn(less, s)
    ensures StrictWeakOrderOn(less, t)
    ensures |s| == |t|
  {
    forall x | x in t ensures x in s {
      assert x in multiset(t);
    }
    assert |multiset(s)| == |s| && |multiset(t)| == |t|;
  }

  // std::partial_sort
  method StdPartialSort<T(!new)>(less: (T, T) -> bool, a: array<T>, middle: nat)
    requires middle <= a.Length && StrictWeakOrderOn(less, a[..])
    modifies a
    ensures multiset(a[..]) == old(multiset(a[..]))
    ensures FrontSorted(less, a[..], middle, a.Length)
  {
    SelectSmallest(less, a, middle, a.Length);
  }

  // std::nth_element: nothing from position `nth` on is less than anything before it, and nothing after it is less
  // than the element there, which is so the one that sorting would put there; no other order is promised.
  method StdNthElement<T(!new)>(less: (T, T) -> bool, a: array<T>, nth: nat)
    requires nth <= a.Length && StrictWeakOrderOn(less, a[..])
    modifies a
    ensures multiset(a[..]) == old(multiset(a[..]))
    ensures forall i, j :: 0 <= i < nth <= j < a.Length ==> !less(a[j], a[i])
    ensures forall j :: nth < j < a.Length ==> !less(a[j], a[nth])
  {
    SelectSmallest(less, a, if nth < a.Length then nth + 1 else nth, a.Length);
  }

  // std::sort of the range before `end`.
  method StdSort<T(!new)>(less: (T, T) -> bool, a: array<T>, end: nat)
    requires end <= a.Length && StrictWeakOrderOn(less, a[..])
    modifies a
    ensures multiset(a[..]) == old(multiset(a[..])) && a[end..] == old(a[end..])
    ensures FrontSorted(less, a[..], end, end)
  {
    SelectSmallest(less, a, end, end);
  }

  lemma PermutedFront<T>(s: seq<T>, t: seq<T>, k: nat)
    requires k <= |s| == |t| && multiset(s) == multiset(t) && s[k..] == t[k..]
    ensures forall x :: x in t[..k] ==> x in s[..k]
  {
    assert s == s[..k] + s[k..] && t == t[..k] + t[k..];
    assert multiset(s[..k]) == multiset(s) - multiset(s[k..]) == multiset(t[..k]);
    forall x | x in t[..k] ensures x in s[..k] {
      assert x in multiset(t[..k]);
    }
  }

  // Partitioning, then sorting the front alone, gives a sorted front of smallest elements.
  lemma SortedAfterPartition<T>(less: (T, T) -> bool, s: seq<T>, t: seq<T>, k: nat)
    requires k <= |s| == |t| && multiset(s) == multiset(t) && s[k..] == t[k..]
    requires forall i, j :: 0 <= i < k <= j < |s| ==> !less(s[j], s[i])
    requires FrontSorted(less, t, k, k)
    ensures FrontSorted(less, t, k, |t|)
  {
    PermutedFront(s, t, k);
    forall i, j | 0 <= i < k <= j < |t| ensures !less(t[j], t[i]) {
      assert t[i] in t[..k];
      var i' :| 0 <= i' < k && s[..k][i'] == t[i];
      assert t[j] == t[k..][j - k] == s[j];
    }
  }

  /** PartialSort: both branches meet the one specification. The array keeps its length; the vector is what is
      left of it after the final erase, its first `size` elements. */
  method PartialSort<T(!new)>(less: (T, T) -> bool, elements: array<T>, requested: nat)
    returns (size: nat)
    requires StrictWeakOrderOn(less, elements[..])
    modifies elements
    ensures size == if 0 < requested < elements.Length then requested else elements.Length
    ensures IsPartialSort(less, old(elements[..]), requested, elements[..])
  {
    size := if requested > 0 && elements.Length >= requested then requested else elements.Length;
    var threshold := if elements.Length / 64 < 1024 then 1024 else elements.Length / 64;
    if size <= threshold {
      StdPartialSort(less, elements, size);
    } else {
      ghost var input := elements[..];
      StdNthElement(less, elements, size);
      ghost var partitioned := elements[..];
      SameElements(less, input, partitioned);
      StdSort(less, elements, size);
      SortedAfterPartition(less, partitioned, elements[..], size);
    }
  }

  // ----- The specification leaves a choice only between ties -----

  // How many elements of s are not greater than x.
  function CountUpTo<T>(less: (T, T) -> bool, s: seq<T>, x: T): nat {
    if s == [] then 0 else (if less(x, s[0]) then 0 else 1) + CountUpTo(less, s[1..], x)
  }

  lemma {:induction false} CountConcat<T>(less: (T, T) -> bool, s: seq<T>, t: seq<T>, x: T)
    ensures CountUpTo(less, s + t, x) == CountUpTo(less, s, x) + CountUpTo(less, t, x)
  {
    if s == [] {
      assert s + t == t;
    } else {
      assert (s + t)[1..] == s[1..] + t;
      CountConcat(less, s[1..], t, x);
    }
  }

  lemma CountWithout<T>(less: (T, T) -> bool, s: seq<T>, i: nat, x: T)
    requires i < |s|
    ensures CountUpTo(less, s, x) == CountUpTo(less, s[..i] + s[i + 1..], x) + if less(x, s[i]) then 0 else 1
  {
    var rest := s[i..];
    assert s == s[..i] + rest && rest[1..] == s[i + 1..];
    CountConcat(less, s[..i], rest, x);
    CountConcat(less, s[..i], rest[1..], x);
  }

  lemma WithoutFirst<T>(s: seq<T>, t: seq<T>, i: nat)
    requires s != [] && i < |t| && t[i] == s[0] && multiset(s) == multiset(t)
    ensures multiset(s[1..]) == multiset(t[..i] + t[i + 1..])
  {
    assert s == [s[0]] + s[1..];
    assert t == t[..i] + [t[i]] + t[i + 1..];
    assert multiset(s[1..]) == multiset(s) - multiset{s[0]};
    assert multiset(t[..i] + t[i + 1..]) == multiset(t) - multiset{s[0]};
  }

  lemma {:induction false} CountPermuted<T>(less: (T, T) -> bool, s: seq<T>, t: seq<T>, x: T)
    requires multiset(s) == multiset(t)
    ensures CountUpTo(less, s, x) == CountUpTo(less, t, x)
  {
    if s == [] {
      assert |t| == |multiset(t)| == |multiset(s)| == 0;
    } else {
      assert s[0] in multiset(t);
      var i :| 0 <= i < |t| && t[i] == s[0];
      WithoutFirst(s, t, i);
      CountWithout(less, t, i, x);
      CountPermuted(less, s[1..], t[..i] + t[i + 1..], x);
    }
  }

  lemma {:induction false} CountBounds<T>(less: (T, T) -> bool, s: seq<T>, x: T)
    ensures CountUpTo(less, s, x) <= |s|
    ensures (forall i :: 0 <= i < |s| ==> !less(x, s[i])) ==> CountUpTo(less, s, x) == |s|
    ensures (forall i :: 0 <= i < |s| ==> less(x, s[i])) ==> CountUpTo(less, s, x) == 0
  {
    if s == [] {
    } else {
      assert forall i :: 0 <= i < |s[1..]| ==> s[1..][i] == s[i + 1];
      CountBounds(less, s[1..], x);
    }
  }

  /** Two answers to one request agree position by position, up to ties. */
  lemma PartialSortUnique<T(!new)>(less: (T, T) -> bool, input: seq<T>, requested: nat, s: seq<T>, t: seq<T>, i: nat)
    requires StrictWeakOrderOn(less, input)
    requires IsPartialSort(less, input, requested, s) && IsPartialSort(less, input, requested, t)
    requires i < KeptCount(requested, |input|)
    ensures !less(s[i], t[i]) && !less(t[i], s[i])
  {
    NotLessAt(less, input, KeptCount(requested, |input|), s, t, i);
    NotLessAt(less, input, KeptCount(requested, |input|), t, s, i);
  }

  lemma NotLessAt<T(!new)>(less: (T, T) -> bool, input: seq<T>, kept: nat, s: seq<T>, t: seq<T>, i: nat)
    requires StrictWeakOrderOn(less, input) && i < kept <= |input| == |s| == |t|
    requires multiset(s) == multiset(input) == multiset(t)
    requires FrontSorted(less, s, kept, |s|) && FrontSorted(less, t, kept, |t|)
    ensures !less(s[i], t[i])
  {
    // If it were less, i + 1 elements of s would not exceed s[i], and at most i of t.
    SameElements(less, input, s);
    SameElements(less, input, t);
    CountPermuted(less, s, t, s[i]);
    CountAtLeast(less, s, kept, i);
    assert s[i] in multiset(s);
    if less(s[i], t[i]) {
      assert s[i] in t by {
        assert s[i] in multiset(t);
      }
      CountAtMost(less, t, kept, i, s[i]);
    }
  }

  lemma CountAtLeast<T(!new)>(less: (T, T) -> bool, s: seq<T>, kept: nat, i: nat)
    requires StrictWeakOrderOn(less, s) && i < kept && FrontSorted(less, s, kept, |s|)
    ensures CountUpTo(less, s, s[i]) > i
  {
    var front := s[..i + 1];
    assert s == front + s[i + 1..];
    CountConcat(less, front, s[i + 1..], s[i]);
    assert forall j :: 0 <= j < |front| ==> front[j] == s[j] && !less(s[i], front[j]);
    CountBounds(less, front, s[i]);
  }

  lemma CountAtMost<T(!new)>(less: (T, T) -> bool, t: seq<T>, kept: nat, i: nat, x: T)
    requires StrictWeakOrderOn(less, t) && i < kept && FrontSorted(less, t, kept, |t|)
    requires x in t && less(x, t[i])
    ensures CountUpTo(less, t, x) <= i
  {
    var back := t[i..];
    assert t == t[..i] + back;
    CountConcat(less, t[..i], back, x);
    CountBounds(less, t[..i], x);
    forall j | 0 <= j < |back| ensures less(x, back[j]) {
      assert back[j] == t[i + j] && t[i + j] in t;
    }
    CountBounds(less, back, x);
  }
}
