/** The two hand-written sorts of rede_viaria.py: insertion sort of
    locations by case-insensitive name, and merge sort of segment triples by
    traffic. */
module Sorting {
  import opened Text
  import opened Places

  // ---------------------------------------------------------------------
  // Insertion sort of locations by name (insertion_sort_locais)
  // ---------------------------------------------------------------------

  /** Ascending by lower-cased name: no later location comes strictly before an earlier one. */
  ghost predicate SortedByName(s: seq<Location>) {
    forall i, j :: 0 <= i < j < |s| ==> !NameBefore(s[j], s[i])
  }

  /** One pass of the inner loop: `x` moves left past every element whose
      name is strictly greater, and stops at the first that is not. */
  function Insert(s: seq<Location>, x: Location): (r: seq<Location>)
    ensures |r| == |s| + 1 && x in r
  {
    if s == [] then [x]
    else if NameBefore(x, s[|s| - 1]) then Insert(s[..|s| - 1], x) + [s[|s| - 1]]
    else s + [x]
  }

  /** The insertion sort, as a function: insert each element, left to right,
      into the sorted prefix before it. */
  function SortByName(s: seq<Location>): (r: seq<Location>)
    ensures |r| == |s|
  {
    if s == [] then [] else Insert(SortByName(s[..|s| - 1]), s[|s| - 1])
  }

  /** The locations of `s` whose identity is `k`, in their order in `s`. */
  function WithIdentity(s: seq<Location>, k: string): seq<Location> {
    if s == [] then []
    else WithIdentity(s[..|s| - 1], k) + (if Identity(s[|s| - 1]) == k then [s[|s| - 1]] else [])
  }

  lemma {:induction false} InsertPermutes(s: seq<Location>, x: Location)
    ensures multiset(Insert(s, x)) == multiset(s) + multiset{x}
  {
    if s != [] && NameBefore(x, s[|s| - 1]) {
      InsertPermutes(s[..|s| - 1], x);
      assert s == s[..|s| - 1] + [s[|s| - 1]];
    }
  }

  /** Appending an element that no earlier one exceeds keeps a sequence sorted. */
  lemma AppendSorted(t: seq<Location>, y: Location)
    requires SortedByName(t)
    requires forall i :: 0 <= i < |t| ==> !NameBefore(y, t[i])
    ensures SortedByName(t + [y])
  {
    var u := t + [y];
    forall i, j | 0 <= i < j < |u|
      ensures !NameBefore(u[j], u[i])
    {
      assert u[i] == t[i];
    }
  }

  lemma {:induction false} InsertSorted(s: seq<Location>, x: Location)
    requires SortedByName(s)
    ensures SortedByName(Insert(s, x))
  {
    if s != [] {
      var init, last := s[..|s| - 1], s[|s| - 1];
      assert s == init + [last];
      if NameBefore(x, last) {
        assert SortedByName(init);
        InsertSorted(init, x);
        InsertPermutes(init, x);
        var r := Insert(init, x);
        forall i | 0 <= i < |r|
          ensures !NameBefore(last, r[i])
        {
          assert r[i] in multiset(r);
          if r[i] == x {
            NameTrichotomy(x, last);
          } else {
            assert r[i] in multiset(init);
            var k :| 0 <= k < |init| && init[k] == r[i];
            assert s[k] == r[i];
          }
        }
        AppendSorted(r, last);
      } else {
        forall i | 0 <= i < |s|
          ensures !NameBefore(x, s[i])
        {
          if NameBefore(x, s[i]) {
            NameTrichotomy(s[i], last);
            if NameBefore(s[i], last) {
              NameBeforeTransitive(x, s[i], last);
            }
          }
        }
        AppendSorted(s, x);
      }
    }
  }

  /** The insertion sort returns a permutation of its input. */
  lemma {:induction false} SortByNamePermutes(s: seq<Location>)
    ensures multiset(SortByName(s)) == multiset(s)
  {
    if s != [] {
      SortByNamePermutes(s[..|s| - 1]);
      InsertPermutes(SortByName(s[..|s| - 1]), s[|s| - 1]);
      assert s == s[..|s| - 1] + [s[|s| - 1]];
    }
  }

  /** The insertion sort's result is ascending by lower-cased name. */
  lemma {:induction false} SortByNameSorted(s: seq<Location>)
    ensures SortedByName(SortByName(s))
  {
    if s != [] {
      SortByNameSorted(s[..|s| - 1]);
      InsertSorted(SortByName(s[..|s| - 1]), s[|s| - 1]);
    }
  }

  lemma {:induction false} InsertStable(s: seq<Location>, x: Location, k: string)
    ensures WithIdentity(Insert(s, x), k) == WithIdentity(s, k) + (if Identity(x) == k then [x] else [])
  {
    if s == [] {
      assert WithIdentity([x], k) == WithIdentity([], k) + (if Identity(x) == k then [x] else []);
    } else {
      var init, last := s[..|s| - 1], s[|s| - 1];
      if NameBefore(x, last) {
        InsertStable(init, x, k);
        NameTrichotomy(x, last);
        var r := Insert(init, x) + [last];
        assert r[..|r| - 1] == Insert(init, x);
      } else {
        var r := s + [x];
        assert r[..|r| - 1] == s;
      }
    }
  }

  /** The insertion sort is stable: the locations sharing any one
      lower-cased name keep their input order, because the strict `<` never
      moves an element past an equal one. */
  lemma {:induction false} SortByNameStable(s: seq<Location>, k: string)
    ensures WithIdentity(SortByName(s), k) == WithIdentity(s, k)
  {
    if s != [] {
      SortByNameStable(s[..|s| - 1], k);
      InsertStable(SortByName(s[..|s| - 1]), s[|s| - 1], k);
    }
  }

  lemma {:induction false} InsertAfterAll(s: seq<Location>, x: Location)
    requires s != [] ==> !NameBefore(x, s[|s| - 1])
    ensures Insert(s, x) == s + [x]
  {
  }

  /** On input already in order the insertion sort changes nothing (its
      linear best case). */
  lemma {:induction false} SortByNameOfSorted(s: seq<Location>)
    requires SortedByName(s)
    ensures SortByName(s) == s
  {
    if s != [] {
      var init := s[..|s| - 1];
      assert SortedByName(init);
      SortByNameOfSorted(init);
      if |s| > 1 {
        assert !NameBefore(s[|s| - 1], s[|s| - 2]);
      }
      InsertAfterAll(init, s[|s| - 1]);
    }
  }

  /** `Insert` places `x` at the first position `m` from the right whose left
      neighbour is not strictly greater than it. */
  lemma {:induction false} InsertAt(p: seq<Location>, x: Location, m: nat)
    requires m <= |p|
    requires forall k :: m <= k < |p| ==> NameBefore(x, p[k])
    requires m > 0 ==> !NameBefore(x, p[m - 1])
    ensures Insert(p, x) == p[..m] + [x] + p[m..]
    decreases |p|
  {
    if m < |p| {
      var init := p[..|p| - 1];
      InsertAt(init, x, m);
      assert p[..m] == init[..m];
      assert p[m..] == init[m..] + [p[|p| - 1]];
    } else if p != [] {
      assert p[..m] == p;
    }
  }

  /** The cells after the shifting loop, read as a sequence: `before` with
      `x` dropped in at `m`, where everything from `m` on is strictly greater. */
  lemma ShiftedIsInsert(before: seq<Location>, after: seq<Location>, x: Location, m: nat)
    requires m <= |before| && |after| == |before| + 1
    requires forall k :: 0 <= k < m ==> after[k] == before[k]
    requires after[m] == x
    requires forall k :: m < k < |after| ==> after[k] == before[k - 1]
    requires forall k :: m <= k < |before| ==> NameBefore(x, before[k])
    requires m > 0 ==> !NameBefore(x, before[m - 1])
    ensures after == Insert(before, x)
  {
    InsertAt(before, x, m);
    assert after == before[..m] + [x] + before[m..];
  }

  /** One pass of `insertion_sort_locais`'s outer loop: `a[i]` is the key;
      every element of the sorted prefix `a[..i]` whose name is strictly
      greater moves one cell right, and the key drops into the gap. */
  method InsertKey(a: array<Location>, i: nat)
    requires i < a.Length
    modifies a
    ensures a[..i + 1] == Insert(old(a[..i]), old(a[i]))
    ensures forall k :: i < k < a.Length ==> a[k] == old(a[k])
  {
    var chave := a[i];
    ghost var p := a[..i];
    var j := i - 1;
    while j >= 0 && NameBefore(chave, a[j])
      invariant -1 <= j < i
      invariant forall k :: 0 <= k <= j ==> a[k] == p[k]
      invariant forall k :: j + 2 <= k <= i ==> a[k] == p[k - 1]
      invariant forall k :: j + 1 <= k < i ==> NameBefore(chave, p[k])
      invariant forall k :: i < k < a.Length ==> a[k] == old(a[k])
    {
      a[j + 1] := a[j];
      j := j - 1;
    }
    a[j + 1] := chave;
    ShiftedIsInsert(p, a[..i + 1], chave, j + 1);
  }

  /** `insertion_sort_locais`: sorts a copy of the list in an array, one key
      at a time. The caller's sequence is a value and is not changed. */
  method InsertionSortLocations(input: seq<Location>) returns (r: seq<Location>)
    ensures r == SortByName(input)
  {
    if |input| == 0 {
      return input;
    }
    var a := new Location[|input|](k requires 0 <= k < |input| => input[k]);
    assert a[..1] == SortByName(input[..1]);
    for i := 1 to a.Length
      invariant a[..i] == SortByName(input[..i])
      invariant forall k :: i <= k < a.Length ==> a[k] == input[k]
    {
      InsertKey(a, i);
      assert input[..i + 1][..i] == input[..i];
    }
    r := a[..];
    assert input[..a.Length] == input;
  }

  // ---------------------------------------------------------------------
  // Merge sort of segment triples by traffic (merge_sort_trocos, merge_trocos)
  // ---------------------------------------------------------------------

  /** A `(loc1, loc2, veiculos)` triple; `traffic` is the tuple's index 2. */
  datatype Ranked = Ranked(from: string, to: string, traffic: int)

  /** The merge's comparison: take the left element only when it is strictly
      ahead of the right one in the chosen direction. */
  predicate Ahead(x: Ranked, y: Ranked, descending: bool) {
    if descending then x.traffic > y.traffic else x.traffic < y.traffic
  }

  /** `x` may precede `y` in a sequence sorted in the chosen direction. */
  predicate InOrder(x: Ranked, y: Ranked, descending: bool) {
    if descending then x.traffic >= y.traffic else x.traffic <= y.traffic
  }

  /** Non-increasing in traffic when `descending`, non-decreasing otherwise. */
  ghost predicate Ordered(s: seq<Ranked>, descending: bool) {
    forall i, j :: 0 <= i < j < |s| ==> InOrder(s[i], s[j], descending)
  }

  /** What `merge_trocos` returns: repeatedly emit the front element that is
      ahead (the right one on a tie), then the rest of whichever side is left. */
  function Merged(left: seq<Ranked>, right: seq<Ranked>, descending: bool): (r: seq<Ranked>)
    ensures |r| == |left| + |right|
    decreases |left| + |right|
  {
    if left == [] then right
    else if right == [] then left
    else if Ahead(left[0], right[0], descending) then [left[0]] + Merged(left[1..], right, descending)
    else [right[0]] + Merged(left, right[1..], descending)
  }

  /** `merge_sort_trocos`: lists of length at most one come back as they are;
      longer ones are split at the floor midpoint, both halves sorted, then merged. */
  function MergeSortTrocos(s: seq<Ranked>, descending: bool): (r: seq<Ranked>)
    ensures |r| == |s|
    decreases |s|
  {
    if |s| <= 1 then s
    else
      var mid := |s| / 2;
      Merged(MergeSortTrocos(s[..mid], descending), MergeSortTrocos(s[mid..], descending), descending)
  }

  /** One step of the merge, with both sides non-empty. */
  lemma MergedStep(left: seq<Ranked>, right: seq<Ranked>, descending: bool)
    requires left != [] && right != []
    ensures Merged(left, right, descending) ==
      if Ahead(left[0], right[0], descending) then [left[0]] + Merged(left[1..], right, descending)
      else [right[0]] + Merged(left, right[1..], descending)
  {
  }

  /** Once one side is exhausted, the merge is the other side. */
  lemma MergedDrained(left: seq<Ranked>, right: seq<Ranked>, descending: bool)
    requires left == [] || right == []
    ensures Merged(left, right, descending) == left + right
  {
  }

  /** The merge loses and invents nothing: its output is a permutation of
      both inputs together, so its length is the sum of theirs. */
  lemma {:induction false} MergedPermutes(left: seq<Ranked>, right: seq<Ranked>, descending: bool)
    ensures multiset(Merged(left, right, descending)) == multiset(left) + multiset(right)
    ensures |Merged(left, right, descending)| == |left| + |right|
    decreases |left| + |right|
  {
    if left == [] || right == [] {
      MergedDrained(left, right, descending);
    } else if Ahead(left[0], right[0], descending) {
      MergedPermutes(left[1..], right, descending);
      SplitFront(left);
    } else {
      MergedPermutes(left, right[1..], descending);
      SplitFront(right);
    }
  }

  /** A non-empty sequence is its head followed by its tail, as multisets. */
  lemma SplitFront(s: seq<Ranked>)
    requires s != []
    ensures multiset(s) == multiset{s[0]} + multiset(s[1..])
  {
    assert s == [s[0]] + s[1..];
  }

  lemma InOrderTransitive(x: Ranked, y: Ranked, z: Ranked, descending: bool)
    requires InOrder(x, y, descending) && InOrder(y, z, descending)
    ensures InOrder(x, z, descending)
  {
  }

  /** Prepending `h` keeps a sequence ordered when `h` may precede every element. */
  lemma PrependOrdered(h: Ranked, t: seq<Ranked>, descending: bool)
    requires Ordered(t, descending)
    requires forall y :: y in multiset(t) ==> InOrder(h, y, descending)
    ensures Ordered([h] + t, descending)
  {
    var s := [h] + t;
    forall i, j | 0 <= i < j < |s|
      ensures InOrder(s[i], s[j], descending)
    {
      if i == 0 {
        assert s[j] == t[j - 1];
        assert t[j - 1] in multiset(t);
      } else {
        assert s[i] == t[i - 1] && s[j] == t[j - 1];
      }
    }
  }

  /** Merging two sorted lists gives a sorted list. */
  lemma {:induction false} MergedOrdered(left: seq<Ranked>, right: seq<Ranked>, descending: bool)
    requires Ordered(left, descending) && Ordered(right, descending)
    ensures Ordered(Merged(left, right, descending), descending)
    decreases |left| + |right|
  {
    if left != [] && right != [] {
      if Ahead(left[0], right[0], descending) {
        var rest := Merged(left[1..], right, descending);
        MergedOrdered(left[1..], right, descending);
        MergedPermutes(left[1..], right, descending);
        forall y | y in multiset(rest)
          ensures InOrder(left[0], y, descending)
        {
          if y in multiset(left[1..]) {
            var k :| 0 <= k < |left[1..]| && left[1..][k] == y;
            assert left[k + 1] == y;
          } else {
            assert y in multiset(right);
            var k :| 0 <= k < |right| && right[k] == y;
            if k > 0 {
              InOrderTransitive(left[0], right[0], y, descending);
            }
          }
        }
        PrependOrdered(left[0], rest, descending);
      } else {
        var rest := Merged(left, right[1..], descending);
        MergedOrdered(left, right[1..], descending);
        MergedPermutes(left, right[1..], descending);
        forall y | y in multiset(rest)
          ensures InOrder(right[0], y, descending)
        {
          if y in multiset(right[1..]) {
            var k :| 0 <= k < |right[1..]| && right[1..][k] == y;
            assert right[k + 1] == y;
          } else {
            assert y in multiset(left);
            var k :| 0 <= k < |left| && left[k] == y;
            if k > 0 {
              InOrderTransitive(right[0], left[0], y, descending);
            }
          }
        }
        PrependOrdered(right[0], rest, descending);
      }
    }
  }

  /** `merge_sort_trocos` returns a permutation of its input, sorted by
      traffic in the chosen direction; a list of length at most one comes
      back unchanged. */
  lemma {:induction false} MergeSortCorrect(s: seq<Ranked>, descending: bool)
    ensures multiset(MergeSortTrocos(s, descending)) == multiset(s)
    ensures Ordered(MergeSortTrocos(s, descending), descending)
    ensures |s| <= 1 ==> MergeSortTrocos(s, descending) == s
    decreases |s|
  {
    if |s| > 1 {
      var mid := |s| / 2;
      MergeSortCorrect(s[..mid], descending);
      MergeSortCorrect(s[mid..], descending);
      MergedPermutes(MergeSortTrocos(s[..mid], descending), MergeSortTrocos(s[mid..], descending), descending);
      MergedOrdered(MergeSortTrocos(s[..mid], descending), MergeSortTrocos(s[mid..], descending), descending);
      assert s == s[..mid] + s[mid..];
    }
  }

  /** On equal traffic the merge emits the right-hand element first, so the
      merge sort is not stable: two tied triples come back swapped. */
  lemma MergeSortSwapsTies(x: Ranked, y: Ranked, descending: bool)
    requires x.traffic == y.traffic && x != y
    ensures MergeSortTrocos([x, y], descending) == [y, x]
  {
    assert [x, y][..1] == [x] && [x, y][1..] == [y];
    assert Merged([x], [], descending) == [x];
    assert Merged([x], [y], descending) == [y] + Merged([x], [y][1..], descending);
  }

  /** `merge_trocos`: advances two indices, appending the front element the
      comparison picks, then extends with what remains of each side. */
  method MergeTrocos(left: seq<Ranked>, right: seq<Ranked>, descending: bool) returns (r: seq<Ranked>)
    ensures r == Merged(left, right, descending)
  {
    r := [];
    var i, j := 0, 0;
    while i < |left| && j < |right|
      invariant 0 <= i <= |left| && 0 <= j <= |right|
      invariant r + Merged(left[i..], right[j..], descending) == Merged(left, right, descending)
      decreases |left| - i + |right| - j
    {
      ghost var rest := Merged(left[i..], right[j..], descending);
      MergedStep(left[i..], right[j..], descending);
      if Ahead(left[i], right[j], descending) {
        assert left[i..][1..] == left[i + 1..];
        assert rest == [left[i]] + Merged(left[i + 1..], right[j..], descending);
        assert r + rest == (r + [left[i]]) + Merged(left[i + 1..], right[j..], descending);
        r := r + [left[i]];
        i := i + 1;
      } else {
        assert right[j..][1..] == right[j + 1..];
        assert rest == [right[j]] + Merged(left[i..], right[j + 1..], descending);
        assert r + rest == (r + [right[j]]) + Merged(left[i..], right[j + 1..], descending);
        r := r + [right[j]];
        j := j + 1;
      }
    }
    MergedDrained(left[i..], right[j..], descending);
    assert r + (left[i..] + right[j..]) == (r + left[i..]) + right[j..];
    r := r + left[i..];
    r := r + right[j..];
  }
}
