/** The sorter: an in-place Lomuto quicksort of the city array by position,
    with the last element of each range as pivot. */
module Sorter {
  import opened Roads

  /** s is an arrangement of the cities cs in ascending position order. */
  predicate IsSortingOf(s: seq<City>, cs: seq<City>) {
    multiset(s) == multiset(cs) && Sorted(s)
  }

  predicate AllBelow(s: seq<City>, pivot: int) {
    forall c :: c in s ==> c.position < pivot
  }

  predicate AllAtLeast(s: seq<City>, pivot: int) {
    forall c :: c in s ==> pivot <= c.position
  }

  /** Nothing outside [lo, hi) differs between s and t. */
  predicate SameOutside(s: seq<City>, t: seq<City>, lo: int, hi: int) {
    |s| == |t| && forall k :: 0 <= k < |s| && (k < lo || hi <= k) ==> s[k] == t[k]
  }

  /** swap: exchanges the cities at indices i and j. */
  method Swap(a: array<City>, i: int, j: int)
    requires 0 <= i < a.Length && 0 <= j < a.Length
    modifies a
    ensures a[i] == old(a[j]) && a[j] == old(a[i])
    ensures forall k :: 0 <= k < a.Length && k != i && k != j ==> a[k] == old(a[k])
    ensures multiset(a[..]) == old(multiset(a[..]))
  {
    a[i], a[j] := a[j], a[i];
  }

  /** When the whole sequence keeps its multiset and nothing outside
      [lo, hi) moves, the slice [lo, hi) keeps its multiset. */
  lemma SlicePermutation(s: seq<City>, t: seq<City>, lo: int, hi: int)
    requires 0 <= lo <= hi <= |s|
    requires multiset(s) == multiset(t) && SameOutside(s, t, lo, hi)
    ensures multiset(s[lo..hi]) == multiset(t[lo..hi])
  {
    assert s[..lo] == t[..lo] && s[hi..] == t[hi..];
    var front, back := multiset(s[..lo]), multiset(s[hi..]);
    var x, y := multiset(s[lo..hi]), multiset(t[lo..hi]);
    ThreeParts(s, lo, hi);
    ThreeParts(t, lo, hi);
    forall c ensures x[c] == y[c] {
      assert (front + x + back)[c] == (front + y + back)[c];
    }
    assert x == y;
  }

  lemma ThreeParts(s: seq<City>, lo: int, hi: int)
    requires 0 <= lo <= hi <= |s|
    ensures multiset(s) == multiset(s[..lo]) + multiset(s[lo..hi]) + multiset(s[hi..])
  {
    assert s == s[..lo] + s[lo..hi] + s[hi..];
  }

  /** A permutation keeps every bound that held of all its elements. */
  lemma BelowPermutation(s: seq<City>, t: seq<City>, pivot: int)
    requires multiset(s) == multiset(t) && AllBelow(s, pivot)
    ensures AllBelow(t, pivot)
  {
    forall c | c in t ensures c.position < pivot {
      assert c in multiset(t);
    }
  }

  lemma AtLeastPermutation(s: seq<City>, t: seq<City>, pivot: int)
    requires multiset(s) == multiset(t) && AllAtLeast(s, pivot)
    ensures AllAtLeast(t, pivot)
  {
    forall c | c in t ensures pivot <= c.position {
      assert c in multiset(t);
    }
  }

  /** partition: moves every city with a position below the pivot (the last
      city of the range) to the front of [low, high], puts the pivot right
      after them and returns its index. */
  method Partition(a: array<City>, low: int, high: int) returns (p: int)
    requires 0 <= low <= high < a.Length
    modifies a
    ensures low <= p <= high
    ensures a[p] == old(a[high])
    ensures AllBelow(a[low..p], a[p].position)
    ensures AllAtLeast(a[p + 1..high + 1], a[p].position)
    ensures multiset(a[..]) == old(multiset(a[..]))
    ensures SameOutside(a[..], old(a[..]), low, high + 1)
  {
    var pivot := a[high].position;
    var i := low - 1;
    for j := low to high
      invariant low - 1 <= i < j
      invariant forall k :: low <= k <= i ==> a[k].position < pivot
      invariant forall k :: i < k < j ==> pivot <= a[k].position
      invariant a[high] == old(a[high])
      invariant multiset(a[..]) == old(multiset(a[..]))
      invariant forall k :: 0 <= k < a.Length && (k < low || high < k) ==> a[k] == old(a[k])
    {
      if a[j].position < pivot {
        i := i + 1;
        Swap(a, i, j);
      }
    }
    Swap(a, i + 1, high);
    p := i + 1;
    PartitionShape(a[..], low, p, high, pivot);
  }

  /** The index-wise picture partition leaves, restated over the two sides. */
  lemma PartitionShape(s: seq<City>, low: int, p: int, high: int, pivot: int)
    requires 0 <= low <= p <= high < |s|
    requires forall k :: low <= k < p ==> s[k].position < pivot
    requires forall k :: p < k <= high ==> pivot <= s[k].position
    ensures AllBelow(s[low..p], pivot) && AllAtLeast(s[p + 1..high + 1], pivot)
  {
    forall c | c in s[low..p] ensures c.position < pivot {
      var k :| 0 <= k < p - low && s[low..p][k] == c;
      assert s[low + k] == c;
    }
    forall c | c in s[p + 1..high + 1] ensures pivot <= c.position {
      var k :| 0 <= k < high - p && s[p + 1..high + 1][k] == c;
      assert s[p + 1 + k] == c;
    }
  }

  /** Three sorted pieces, the left below the middle city and the right at
      or above it, make a sorted whole. */
  lemma SortedJoin(left: seq<City>, mid: City, right: seq<City>)
    requires Sorted(left) && Sorted(right)
    requires AllBelow(left, mid.position) && AllAtLeast(right, mid.position)
    ensures Sorted(left + [mid] + right)
  {
    var s := left + [mid] + right;
    forall i, j | 0 <= i < j < |s| ensures s[i].position <= s[j].position {
      if i < |left| {
        assert s[i] in left;
      }
      if j > |left| {
        assert s[j] in right;
      }
    }
  }

  /** The step that closes quicksort: a partitioned range whose two sides
      were then sorted in place is sorted and a permutation of the range
      before partitioning. a0 is the array before partition, a1 after it,
      a2 after sorting the left side and a3 after sorting the right side. */
  lemma PartitionThenSortSides(a0: seq<City>, a1: seq<City>, a2: seq<City>, a3: seq<City>, low: int, p: int, high: int)
    requires 0 <= low <= p <= high < |a0|
    requires SameOutside(a1, a0, low, high + 1) && multiset(a1) == multiset(a0)
    requires AllBelow(a1[low..p], a1[p].position) && AllAtLeast(a1[p + 1..high + 1], a1[p].position)
    requires SameOutside(a2, a1, low, p) && multiset(a2) == multiset(a1) && Sorted(a2[low..p])
    requires SameOutside(a3, a2, p + 1, high + 1) && multiset(a3) == multiset(a2)
    requires Sorted(a3[p + 1..high + 1])
    ensures Sorted(a3[low..high + 1])
    ensures multiset(a3) == multiset(a0)
    ensures SameOutside(a3, a0, low, high + 1)
  {
    var pivot := a1[p];
    SidesSettled(a1, a2, a3, low, p, high);
    SlicePermutation(a2, a1, low, p);
    SlicePermutation(a3, a2, p + 1, high + 1);
    BelowPermutation(a1[low..p], a3[low..p], pivot.position);
    AtLeastPermutation(a1[p + 1..high + 1], a3[p + 1..high + 1], pivot.position);
    SortedJoin(a3[low..p], pivot, a3[p + 1..high + 1]);
    SplitAround(a3, low, p, high);
  }

  lemma SplitAround(s: seq<City>, low: int, p: int, high: int)
    requires 0 <= low <= p <= high < |s|
    ensures s[low..high + 1] == s[low..p] + [s[p]] + s[p + 1..high + 1]
  {
  }

  /** Sorting one side leaves the pivot and the other side where they were. */
  lemma SidesSettled(a1: seq<City>, a2: seq<City>, a3: seq<City>, low: int, p: int, high: int)
    requires 0 <= low <= p <= high < |a1|
    requires SameOutside(a2, a1, low, p) && SameOutside(a3, a2, p + 1, high + 1)
    ensures a2[p + 1..high + 1] == a1[p + 1..high + 1]
    ensures a3[low..p] == a2[low..p] && a3[p] == a1[p]
  {
  }

  /** quicksort: sorts the range [low, high] in place; callers may pass an
      empty range (high == low - 1), as the recursion does. */
  method Quicksort(a: array<City>, low: int, high: int)
    requires 0 <= low <= high + 1 <= a.Length
    modifies a
    ensures Sorted(a[low..high + 1])
    ensures multiset(a[..]) == old(multiset(a[..]))
    ensures SameOutside(a[..], old(a[..]), low, high + 1)
    decreases high + 1 - low
  {
    if low < high {
      ghost var a0 := a[..];
      var p := Partition(a, low, high);
      ghost var a1 := a[..];
      Quicksort(a, low, p - 1);
      ghost var a2 := a[..];
      Quicksort(a, p + 1, high);
      PartitionThenSortSides(a0, a1, a2, a[..], low, p, high);
    }
  }

  /** A city that occurs at two indices of t occurs at least twice in it. */
  lemma TwoOccurrences(t: seq<City>, i: int, j: int)
    requires 0 <= i < j < |t| && t[i] == t[j]
    ensures multiset(t)[t[i]] >= 2
  {
    assert t == t[..j] + [t[j]] + t[j + 1..];
    assert t[i] in t[..j];
  }

  /** A city that occurs at least twice in s occurs at a second index. */
  lemma SecondOccurrence(s: seq<City>, a: int) returns (b: int)
    requires 0 <= a < |s| && multiset(s)[s[a]] >= 2
    ensures 0 <= b < |s| && b != a && s[b] == s[a]
  {
    assert s == s[..a] + [s[a]] + s[a + 1..];
    assert multiset(s[..a])[s[a]] + multiset(s[a + 1..])[s[a]] >= 1;
    if s[a] in s[..a] {
      var k :| 0 <= k < a && s[..a][k] == s[a];
      b := k;
    } else {
      assert s[a] in multiset(s[a + 1..]);
      var k :| 0 <= k < |s| - a - 1 && s[a + 1..][k] == s[a];
      b := a + 1 + k;
    }
  }

  /** Rearranging cities cannot make two of them share a position. */
  lemma DistinctUnderPermutation(s: seq<City>, t: seq<City>)
    requires multiset(s) == multiset(t) && DistinctPositions(s)
    ensures DistinctPositions(t)
  {
    forall i, j | 0 <= i < j < |t| ensures t[i].position != t[j].position {
      assert t[i] in multiset(s) && t[j] in multiset(s);
      var a :| 0 <= a < |s| && s[a] == t[i];
      var b :| 0 <= b < |s| && s[b] == t[j];
      if a == b {
        TwoOccurrences(t, i, j);
        var c := SecondOccurrence(s, a);
        assert false;
      }
    }
  }

  /** Two sorted permutations of cities with distinct positions start with
      the same city. */
  lemma SameFirst(s: seq<City>, t: seq<City>)
    requires multiset(s) == multiset(t) && DistinctPositions(s)
    requires Sorted(s) && Sorted(t) && |s| > 0
    ensures |t| > 0 && s[0] == t[0]
  {
    assert |t| == |multiset(t)| == |multiset(s)| == |s|;
    assert s[0] in multiset(t) && t[0] in multiset(s);
    var a :| 0 <= a < |t| && t[a] == s[0];
    var b :| 0 <= b < |s| && s[b] == t[0];
    assert t[0].position <= t[a].position;
    assert s[0].position <= s[b].position;
    assert b == 0;
  }

  /** Dropping the same first city from two permutations of each other
      leaves permutations of each other, still sorted and distinct. */
  lemma DropFirst(s: seq<City>, t: seq<City>)
    requires multiset(s) == multiset(t) && DistinctPositions(s)
    requires Sorted(s) && Sorted(t) && |s| > 0 && |t| > 0 && s[0] == t[0]
    ensures multiset(s[1..]) == multiset(t[1..]) && DistinctPositions(s[1..])
    ensures Sorted(s[1..]) && Sorted(t[1..])
  {
    assert s == [s[0]] + s[1..] && t == [t[0]] + t[1..];
    assert multiset(s[1..]) == multiset(s) - multiset{s[0]};
    assert multiset(t[1..]) == multiset(t) - multiset{t[0]};
    SortedTail(s);
    SortedTail(t);
    forall i, j | 0 <= i < j < |s| - 1 ensures s[1..][i].position != s[1..][j].position {
      assert s[1..][i] == s[i + 1] && s[1..][j] == s[j + 1];
    }
  }

  lemma SortedTail(s: seq<City>)
    requires Sorted(s) && |s| > 0
    ensures Sorted(s[1..])
  {
    forall i, j | 0 <= i < j < |s| - 1 ensures s[1..][i].position <= s[1..][j].position {
      assert s[1..][i] == s[i + 1] && s[1..][j] == s[j + 1];
    }
  }

  /** With distinct positions there is only one sorted arrangement: any two
      sorted permutations of the same cities are equal, so every run of the
      sorter on a loaded road yields the same array. */
  lemma {:induction false} SortingIsUnique(s: seq<City>, t: seq<City>)
    requires multiset(s) == multiset(t) && DistinctPositions(s)
    requires Sorted(s) && Sorted(t)
    ensures s == t
    decreases |s|
  {
    if |s| == 0 {
      assert |t| == |multiset(t)| == |multiset(s)| == 0;
    } else {
      SameFirst(s, t);
      DropFirst(s, t);
      SortingIsUnique(s[1..], t[1..]);
      assert s == [s[0]] + s[1..] && t == [t[0]] + t[1..];
    }
  }
}
