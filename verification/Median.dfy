/** `median` and the in-place quicksort under it, over reals (no NaN, no rounding). */
module Median {

  // ----- sequences, seen through a slice `lo..hi`

  ghost predicate SortedSlice(s: seq<real>, lo: nat, hi: nat)
    requires lo <= hi <= |s|
  {
    forall i, j | lo <= i < j < hi :: s[i] <= s[j]
  }

  /** `t` is `s` with its slice `lo..hi` permuted and nothing else changed. */
  ghost predicate Permuted(s: seq<real>, t: seq<real>, lo: nat, hi: nat)
    requires lo <= hi <= |s|
  {
    && |t| == |s|
    && t[..lo] == s[..lo] && t[hi..] == s[hi..]
    && multiset(t[lo..hi]) == multiset(s[lo..hi])
  }

  function Swap(s: seq<real>, i: nat, j: nat): seq<real>
    requires i < |s| && j < |s|
  {
    s[i := s[j]][j := s[i]]
  }

  lemma SwapPermutes(s: seq<real>, lo: nat, hi: nat, i: nat, j: nat)
    requires lo <= i < hi <= |s| && lo <= j < hi
    ensures Permuted(s, Swap(s, i, j), lo, hi)
  {
    var t := Swap(s, i, j);
    assert t[lo..hi] == s[lo..hi][i - lo := s[lo..hi][j - lo]][j - lo := s[lo..hi][i - lo]];
  }

  lemma PermutedTrans(s: seq<real>, t: seq<real>, u: seq<real>, lo: nat, hi: nat)
    requires lo <= hi <= |s| && Permuted(s, t, lo, hi) && Permuted(t, u, lo, hi)
    ensures Permuted(s, u, lo, hi)
  {
  }

  /** A permutation of part of a slice is a permutation of the slice. */
  lemma PermutedWiden(s: seq<real>, t: seq<real>, a: nat, b: nat, lo: nat, hi: nat)
    requires lo <= a <= b <= hi <= |s| && Permuted(s, t, a, b)
    ensures Permuted(s, t, lo, hi)
  {
    assert forall k | 0 <= k < a :: t[k] == t[..a][k] == s[..a][k] == s[k];
    assert forall k | b <= k < |s| :: t[k] == t[b..][k - b] == s[b..][k - b] == s[k];
    assert t[lo..hi] == t[lo..a] + t[a..b] + t[b..hi];
    assert s[lo..hi] == s[lo..a] + s[a..b] + s[b..hi];
    assert t[lo..a] == s[lo..a] && t[b..hi] == s[b..hi];
  }

  lemma PermutedElsewhere(s: seq<real>, t: seq<real>, lo: nat, hi: nat)
    requires lo <= hi <= |s| && Permuted(s, t, lo, hi)
    ensures forall k | 0 <= k < lo || hi <= k < |s| :: t[k] == s[k]
  {
    assert forall k | 0 <= k < lo :: t[k] == t[..lo][k] == s[..lo][k] == s[k];
    assert forall k | hi <= k < |s| :: t[k] == t[hi..][k - hi] == s[hi..][k - hi] == s[k];
  }

  lemma PermutedBounds(s: seq<real>, t: seq<real>, lo: nat, hi: nat, x: real)
    requires lo <= hi <= |s| && Permuted(s, t, lo, hi)
    ensures (forall k | lo <= k < hi :: s[k] < x) ==> forall k | lo <= k < hi :: t[k] < x
    ensures (forall k | lo <= k < hi :: x <= s[k]) ==> forall k | lo <= k < hi :: x <= t[k]
  {
    forall k | lo <= k < hi ensures exists m :: lo <= m < hi && s[m] == t[k] {
      assert t[lo..hi][k - lo] in multiset(t[lo..hi]);
      var m :| 0 <= m < hi - lo && s[lo..hi][m] == t[k];
      assert s[lo + m] == t[k];
    }
  }

  /** Left of `p` is below `s[p]`, right of it is not. */
  ghost predicate PartitionedAt(s: seq<real>, lo: nat, hi: nat, p: nat)
    requires hi <= |s|
  {
    && lo <= p < hi
    && (forall k | lo <= k < p :: s[k] < s[p])
    && (forall k | p < k < hi :: s[p] <= s[k])
  }

  // ----- the moving hole

  /** The loop of `partition`: positions up to `i` are done, `j` is the hole, and with the pivot put back into the
      hole the sequence is a permutation of `before`. */
  ghost predicate HoleInv(s: seq<real>, before: seq<real>, lo: nat, hi: nat, i: nat, j: nat, pivot: real) {
    && lo <= j <= i < hi <= |s|
    && |before| == |s|
    && (forall k | lo <= k < j :: s[k] < pivot)
    && (forall k | j < k <= i :: pivot <= s[k])
    && Permuted(before, s[j := pivot], lo, hi)
  }

  /** Moving a small element into the hole at `j` and the hole to `j + 1` is two swaps, once the hole is filled. */
  lemma HoleMovesBySwaps(s: seq<real>, i: nat, j: nat, pivot: real)
    requires j < i < |s|
    ensures s[j := s[i]][i := s[j + 1]][j + 1 := pivot] == Swap(Swap(s[j := pivot], j, i), j + 1, i)
  {
    var moved := s[j := s[i]][i := s[j + 1]][j + 1 := pivot];
    var first := Swap(s[j := pivot], j, i);
    assert first[j] == s[i] && first[i] == pivot && forall k | 0 <= k < |s| && k != i && k != j :: first[k] == s[k];
    var second := Swap(first, j + 1, i);
    assert |second| == |moved|;
    forall k | 0 <= k < |s| ensures moved[k] == second[k] {
    }
  }

  lemma HoleMoves(s: seq<real>, lo: nat, hi: nat, i: nat, j: nat, pivot: real)
    requires lo <= j < i < hi <= |s|
    ensures Permuted(s[j := pivot], s[j := s[i]][i := s[j + 1]][j + 1 := pivot], lo, hi)
  {
    var filled := s[j := pivot];
    var swapped := Swap(filled, j, i);
    HoleMovesBySwaps(s, i, j, pivot);
    hide Permuted;
    SwapPermutes(filled, lo, hi, j, i);
    SwapPermutes(swapped, lo, hi, j + 1, i);
    hide Swap;
    PermutedTrans(filled, swapped, Swap(swapped, j + 1, i), lo, hi);
  }

  lemma HoleStep(s: seq<real>, before: seq<real>, lo: nat, hi: nat, i: nat, j: nat, pivot: real)
    requires HoleInv(s, before, lo, hi, i, j, pivot) && i + 1 < hi
    ensures if s[i + 1] < pivot
            then HoleInv(s[j := s[i + 1]][i + 1 := s[j + 1]], before, lo, hi, i + 1, j + 1, pivot)
            else HoleInv(s, before, lo, hi, i + 1, j, pivot)
  {
    if s[i + 1] < pivot {
      HoleMoves(s, lo, hi, i + 1, j, pivot);
      PermutedTrans(before, s[j := pivot], s[j := s[i + 1]][i + 1 := s[j + 1]][j + 1 := pivot], lo, hi);
    }
  }

  /** `select_pivot`: any element of the slice may end up in front. */
  method SelectPivot(a: array<real>, lo: nat, hi: nat)
    requires lo < hi <= a.Length
    modifies a
    ensures Permuted(old(a[..]), a[..], lo, hi)
  {
    var idx :| lo <= idx < hi;
    SwapPermutes(a[..], lo, hi, lo, idx);
    a[lo], a[idx] := a[idx], a[lo];
    assert a[..] == Swap(old(a[..]), lo, idx);
  }

  /** `partition` on the slice `lo..hi`, for any choice of pivot. */
  method Partition(a: array<real>, lo: nat, hi: nat) returns (p: nat)
    requires lo < hi <= a.Length
    modifies a
    ensures PartitionedAt(a[..], lo, hi, p)
    ensures Permuted(old(a[..]), a[..], lo, hi)
  {
    hide Permuted;
    SelectPivot(a, lo, hi);
    ghost var before := old(a[..]);
    var pivot := a[lo];
    var i, j := lo, lo;
    assert a[..][lo := pivot] == a[..];
    while i < hi - 1
      invariant HoleInv(a[..], before, lo, hi, i, j, pivot)
    {
      ghost var s := a[..];
      HoleStep(s, before, lo, hi, i, j, pivot);
      i := i + 1;
      if a[i] < pivot {
        a[j] := a[i];
        j := j + 1;
        a[i] := a[j];
        assert a[..] == s[j - 1 := s[i]][i := s[j]];
      }
    }
    ghost var s := a[..];
    a[j] := pivot;
    assert a[..] == s[j := pivot];
    p := j;
  }

  /** Sorting both sides of a partition sorts the whole. */
  lemma SortedAround(s: seq<real>, l: seq<real>, t: seq<real>, lo: nat, hi: nat, p: nat)
    requires hi <= |s| && PartitionedAt(s, lo, hi, p)
    requires Permuted(s, l, lo, p) && SortedSlice(l, lo, p)
    requires Permuted(l, t, p + 1, hi) && SortedSlice(t, p + 1, hi)
    ensures Permuted(s, t, lo, hi) && SortedSlice(t, lo, hi)
  {
    PermutedElsewhere(s, l, lo, p);
    PermutedElsewhere(l, t, p + 1, hi);
    PermutedBounds(s, l, lo, p, s[p]);
    PermutedBounds(l, t, p + 1, hi, s[p]);
    PermutedWiden(s, l, lo, p, lo, hi);
    PermutedWiden(l, t, p + 1, hi, lo, hi);
    PermutedTrans(s, l, t, lo, hi);
    hide Permuted;
    forall i, j | lo <= i < j < hi
      ensures t[i] <= t[j]
    {
      if j < p { assert l[i] <= l[j]; }
    }
  }

  /** `quicksort` on the slice `lo..hi`: sorted, a permutation, and nothing else touched, whatever pivots are drawn. */
  method Quicksort(a: array<real>, lo: nat, hi: nat)
    requires lo <= hi <= a.Length
    modifies a
    ensures SortedSlice(a[..], lo, hi)
    ensures Permuted(old(a[..]), a[..], lo, hi)
    decreases hi - lo
  {
    if hi - lo <= 1 {
      return;
    }
    hide Permuted, SortedSlice, PartitionedAt;
    var p := Partition(a, lo, hi);
    ghost var s := a[..];
    assert lo <= p < hi by { PivotInside(s, lo, hi, p); }
    Quicksort(a, lo, p);
    ghost var l := a[..];
    Quicksort(a, p + 1, hi);
    SortedAround(s, l, a[..], lo, hi, p);
    PermutedTrans(old(a[..]), s, a[..], lo, hi);
  }

  lemma PivotInside(s: seq<real>, lo: nat, hi: nat, p: nat)
    requires hi <= |s| && PartitionedAt(s, lo, hi, p)
    ensures lo <= p < hi
  {
  }

  // ----- the median, without an algorithm

  ghost predicate Sorted(s: seq<real>) {
    SortedSlice(s, 0, |s|)
  }

  function Insert(x: real, s: seq<real>): seq<real> {
    if s == [] || x <= s[0] then [x] + s else [s[0]] + Insert(x, s[1..])
  }

  function Sort(s: seq<real>): seq<real> {
    if s == [] then [] else Insert(s[0], Sort(s[1..]))
  }

  lemma SortedTail(s: seq<real>)
    requires Sorted(s) && s != []
    ensures Sorted(s[1..]) && s == [s[0]] + s[1..]
    ensures forall x | x in s :: s[0] <= x
  {
    assert forall i | 0 <= i < |s[1..]| :: s[1..][i] == s[i + 1];
  }

  lemma SortedCons(x: real, s: seq<real>)
    requires Sorted(s) && (s == [] || x <= s[0])
    ensures Sorted([x] + s)
  {
    var t := [x] + s;
    assert forall i | 0 < i < |t| :: t[i] == s[i - 1];
  }

  lemma {:induction false} InsertSorts(x: real, s: seq<real>)
    requires Sorted(s)
    ensures Sorted(Insert(x, s))
    ensures Insert(x, s)[0] == if s == [] || x <= s[0] then x else s[0]
  {
    if s == [] || x <= s[0] {
      SortedCons(x, s);
    } else {
      SortedTail(s);
      InsertSorts(x, s[1..]);
      SortedCons(s[0], Insert(x, s[1..]));
    }
  }

  lemma {:induction false} InsertAdds(x: real, s: seq<real>)
    ensures multiset(Insert(x, s)) == multiset([x] + s)
  {
    if s != [] && x > s[0] {
      InsertAdds(x, s[1..]);
      assert s == [s[0]] + s[1..];
    }
  }

  lemma {:induction false} SortSorts(s: seq<real>)
    ensures Sorted(Sort(s)) && multiset(Sort(s)) == multiset(s) && |Sort(s)| == |s|
  {
    if s != [] {
      SortSorts(s[1..]);
      InsertSorts(s[0], Sort(s[1..]));
      InsertAdds(s[0], Sort(s[1..]));
      assert s == [s[0]] + s[1..];
    }
    assert |multiset(Sort(s))| == |multiset(s)|;
  }

  lemma SameTails(s: seq<real>, t: seq<real>)
    requires s != [] && t != [] && s[0] == t[0] && multiset(s) == multiset(t)
    ensures multiset(s[1..]) == multiset(t[1..])
  {
    assert s == [s[0]] + s[1..] && t == [t[0]] + t[1..];
    assert multiset(s[1..]) == multiset(s) - multiset{s[0]};
    assert multiset(t[1..]) == multiset(t) - multiset{t[0]};
  }

  lemma {:induction false} SortedUnique(s: seq<real>, t: seq<real>)
    requires Sorted(s) && Sorted(t) && multiset(s) == multiset(t)
    ensures s == t
    decreases |s|
  {
    hide Sorted;
    assert |s| == |multiset(s)| == |multiset(t)| == |t|;
    if s != [] {
      SortedTail(s);
      SortedTail(t);
      assert s[0] in multiset(s) && t[0] in multiset(t);
      assert s[0] in t && t[0] in s;
      assert s[0] == t[0];
      SameTails(s, t);
      SortedUnique(s[1..], t[1..]);
    }
  }

  /** Sorting a permutation of `v` in place gives `Sort(v)`. */
  lemma SortedIsSort(v: seq<real>, s: seq<real>)
    requires |v| == |s| && SortedSlice(s, 0, |s|) && Permuted(v, s, 0, |v|)
    ensures s == Sort(v)
  {
    assert s[0..|v|] == s && v[0..|v|] == v;
    SortSorts(v);
    SortedUnique(s, Sort(v));
  }

  /** The middle order statistic, or the mean of the two middle ones. */
  function MedianOf(v: seq<real>): real
    requires v != []
  {
    SortSorts(v);
    var (s, mid) := (Sort(v), |v| / 2);
    if |v| % 2 == 1 then s[mid] else (s[mid] + s[mid - 1]) / 2.0
  }

  /** Reordering the input does not change the median. */
  lemma MedianOfReordered(v: seq<real>, w: seq<real>)
    requires v != [] && w != [] && multiset(v) == multiset(w)
    ensures MedianOf(v) == MedianOf(w)
  {
    hide Sorted, Sort;
    assert |v| == |multiset(v)| == |multiset(w)| == |w|;
    SortSorts(v);
    SortSorts(w);
    SortedUnique(Sort(v), Sort(w));
  }

  /** How many elements are on or below, and on or above, `m`. */
  function Below(s: seq<real>, m: real): nat {
    if s == [] then 0 else (if s[0] <= m then 1 else 0) + Below(s[1..], m)
  }

  function Above(s: seq<real>, m: real): nat {
    if s == [] then 0 else (if s[0] >= m then 1 else 0) + Above(s[1..], m)
  }

  lemma {:induction false} InsertCounts(x: real, s: seq<real>, m: real)
    ensures Below(Insert(x, s), m) == Below([x] + s, m) && Above(Insert(x, s), m) == Above([x] + s, m)
  {
    assert ([x] + s)[1..] == s;
    if s != [] && x > s[0] {
      InsertCounts(x, s[1..], m);
      assert ([x] + s[1..])[1..] == s[1..];
    }
  }

  lemma {:induction false} SortCounts(s: seq<real>, m: real)
    ensures Below(Sort(s), m) == Below(s, m) && Above(Sort(s), m) == Above(s, m)
  {
    if s != [] {
      SortCounts(s[1..], m);
      InsertCounts(s[0], Sort(s[1..]), m);
      assert ([s[0]] + Sort(s[1..]))[1..] == Sort(s[1..]);
    }
  }

  lemma {:induction false} SortedBelow(s: seq<real>, k: nat, m: real)
    requires Sorted(s) && k < |s| && s[k] <= m
    ensures Below(s, m) >= k + 1
  {
    assert Sorted(s[1..]);
    if k > 0 { SortedBelow(s[1..], k - 1, m); }
  }

  lemma {:induction false} AllAbove(s: seq<real>, m: real)
    requires forall i | 0 <= i < |s| :: m <= s[i]
    ensures Above(s, m) == |s|
  {
    if s != [] { AllAbove(s[1..], m); }
  }

  lemma {:induction false} SortedAbove(s: seq<real>, k: nat, m: real)
    requires Sorted(s) && k < |s| && m <= s[k]
    ensures Above(s, m) >= |s| - k
  {
    assert Sorted(s[1..]);
    if k > 0 { SortedAbove(s[1..], k - 1, m); } else { AllAbove(s, m); }
  }

  /** At least half of the elements are on or below the median, and at least half on or above it. */
  lemma MedianSplits(v: seq<real>)
    requires v != []
    ensures 2 * Below(v, MedianOf(v)) >= |v| && 2 * Above(v, MedianOf(v)) >= |v|
  {
    hide Sort, Below, Above;
    var s, m, mid := Sort(v), MedianOf(v), |v| / 2;
    SortSorts(v);
    SortCounts(v, m);
    if |v| % 2 == 1 {
      SortedBelow(s, mid, m);
      SortedAbove(s, mid, m);
    } else {
      assert s[mid - 1] <= s[mid];
      SortedBelow(s, mid - 1, m);
      SortedAbove(s, mid, m);
    }
  }

  /** `a` and `b` are the two middle values of an even number: half of them on or below `a` and more than half on or
      above it, and the other way round for `b`. */
  ghost predicate MiddlePair(v: seq<real>, a: real, b: real) {
    && a in v && b in v && a <= b
    && 2 * Below(v, a) >= |v| && 2 * Above(v, a) > |v|
    && 2 * Below(v, b) > |v| && 2 * Above(v, b) >= |v|
  }

  /** Of an odd number of values the median is one of them, and more than half are on either side of it, itself
      included; of an even number it is half way between the two middle ones. */
  lemma MedianExactly(v: seq<real>)
    requires v != []
    ensures |v| % 2 == 1 ==>
              && MedianOf(v) in v
              && 2 * Below(v, MedianOf(v)) > |v| && 2 * Above(v, MedianOf(v)) > |v|
    ensures |v| % 2 == 0 ==> exists a, b :: MiddlePair(v, a, b) && 2.0 * MedianOf(v) == a + b
  {
    hide Sort, Below, Above;
    var s, mid := Sort(v), |v| / 2;
    SortSorts(v);
    forall k | 0 <= k < |v| ensures s[k] in v && Below(v, s[k]) > k && Above(v, s[k]) >= |v| - k {
      assert s[k] in multiset(s);
      SortCounts(v, s[k]);
      SortedBelow(s, k, s[k]);
      SortedAbove(s, k, s[k]);
    }
    if |v| % 2 == 0 {
      assert s[mid - 1] <= s[mid];
      assert MiddlePair(v, s[mid - 1], s[mid]);
    }
  }

  /** There is one such pair. */
  lemma MiddlePairUnique(v: seq<real>, a: real, b: real, c: real, d: real)
    requires MiddlePair(v, a, b) && MiddlePair(v, c, d)
    ensures a == c && b == d
  {
    if a < c { NotBoth(v, a, c); }
    if c < a { NotBoth(v, c, a); }
    if b < d { NotBoth(v, b, d); }
    if d < b { NotBoth(v, d, b); }
  }

  /** What is on or below the smaller is not on or above the larger. */
  lemma {:induction false} NotBoth(v: seq<real>, x: real, y: real)
    requires x < y
    ensures Below(v, x) + Above(v, y) <= |v|
  {
    if v != [] { NotBoth(v[1..], x, y); }
  }

  /** `median`: whatever pivots the sort draws, the result is the median of the input, which is left alone. */
  method ComputeMedian(v: seq<real>) returns (m: real)
    requires v != []
    ensures m == MedianOf(v)
    ensures |v| % 2 == 1 ==> m in v && 2 * Below(v, m) > |v| && 2 * Above(v, m) > |v|
    ensures |v| % 2 == 0 ==> exists a, b :: MiddlePair(v, a, b) && 2.0 * m == a + b
  {
    MedianExactly(v);
    hide MiddlePair, Below, Above;
    hide Insert, Sort, SortedSlice, Permuted;
    var scratch := new real[|v|](i requires 0 <= i < |v| => v[i]);
    assert scratch[..] == v;
    Quicksort(scratch, 0, scratch.Length);
    SortedIsSort(v, scratch[..]);
    var mid := scratch.Length / 2;
    if scratch.Length % 2 == 1 {
      m := scratch[mid];
    } else {
      m := (scratch[mid] + scratch[mid - 1]) / 2.0;
    }
  }
}
