/** Sorting by a comparator, and selecting the best k elements in place without sorting the
    rest. */
module Sorting {
  import opened Wrappers

  // ----- Comparators -----

  /** On the elements of `all` the comparator is a total preorder. */
  ghost predicate TotalOn<T(!new)>(cmp: (T, T) -> Ordering, all: set<T>)
  {
    && (forall x, y :: x in all && y in all ==> cmp(y, x) == cmp(x, y).Reverse())
    && (forall x, y, z :: x in all && y in all && z in all && cmp(x, y) != Greater && cmp(y, z) != Greater ==>
          cmp(x, z) != Greater)
  }

  /** Elements that compare equal are the same element. */
  ghost predicate TellsApart<T(!new)>(cmp: (T, T) -> Ordering, all: set<T>)
  {
    forall x, y :: x in all && y in all && cmp(x, y) == Equal ==> x == y
  }

  ghost predicate Within<T>(s: seq<T>, all: set<T>)
  {
    forall e :: e in s ==> e in all
  }

  /** Nothing in `s` sorts before `x`. */
  ghost predicate LowerBound<T(!new)>(cmp: (T, T) -> Ordering, x: T, s: seq<T>)
  {
    forall e :: e in s ==> cmp(x, e) != Greater
  }

  ghost predicate Sorted<T(!new)>(cmp: (T, T) -> Ordering, s: seq<T>)
  {
    s == [] || (LowerBound(cmp, s[0], s[1..]) && Sorted(cmp, s[1..]))
  }

  /** In a sorted sequence every element may stand before every later one. */
  lemma {:induction false} SortedPairs<T(!new)>(cmp: (T, T) -> Ordering, s: seq<T>, i: nat, j: nat)
    requires Sorted(cmp, s) && i < j < |s|
    ensures cmp(s[i], s[j]) != Greater
    decreases i
  {
    if i == 0 {
      assert s[j] == s[1..][j - 1] && s[j] in s[1..];
    } else {
      SortedPairs(cmp, s[1..], i - 1, j - 1);
    }
  }

  // ----- The stable sort -----

  function Insert<T>(cmp: (T, T) -> Ordering, x: T, s: seq<T>): (r: seq<T>)
    ensures multiset(r) == multiset{x} + multiset(s)
    ensures |r| == 1 + |s|
  {
    if s == [] then [x]
    else if cmp(x, s[0]) != Greater then [x] + s
    else
      assert s == [s[0]] + s[1..];
      [s[0]] + Insert(cmp, x, s[1..])
  }

  /** `slice::sort_by`: equal elements keep their order. */
  function SortBy<T>(cmp: (T, T) -> Ordering, s: seq<T>): (r: seq<T>)
    ensures multiset(r) == multiset(s)
    ensures |r| == |s|
  {
    if s == [] then []
    else
      assert s == [s[0]] + s[1..];
      Insert(cmp, s[0], SortBy(cmp, s[1..]))
  }

  lemma SameElements<T>(a: seq<T>, b: seq<T>)
    requires multiset(a) == multiset(b)
    ensures |a| == |b|
    ensures forall e :: e in a <==> e in b
  {
    assert |multiset(a)| == |a| && |multiset(b)| == |b|;
    forall e ensures e in a <==> e in b {
      assert e in multiset(a) <==> e in a;
      assert e in multiset(b) <==> e in b;
    }
  }

  lemma InsertElements<T>(cmp: (T, T) -> Ordering, x: T, s: seq<T>)
    ensures forall e :: e in Insert(cmp, x, s) <==> e == x || e in s
  {
    assert multiset([x] + s) == multiset{x} + multiset(s);
    SameElements(Insert(cmp, x, s), [x] + s);
  }

  lemma {:induction false} InsertSorts<T(!new)>(cmp: (T, T) -> Ordering, x: T, s: seq<T>, all: set<T>)
    requires TotalOn(cmp, all) && x in all && Within(s, all) && Sorted(cmp, s)
    ensures Sorted(cmp, Insert(cmp, x, s))
  {
    if s != [] {
      assert s[0] in s && forall e :: e in s ==> e == s[0] || e in s[1..];
      if cmp(x, s[0]) != Greater {
        assert ([x] + s)[1..] == s;
      } else {
        InsertSorts(cmp, x, s[1..], all);
        InsertElements(cmp, x, s[1..]);
        assert Insert(cmp, x, s)[1..] == Insert(cmp, x, s[1..]);
      }
    }
  }

  lemma {:induction false} SortBySorts<T(!new)>(cmp: (T, T) -> Ordering, s: seq<T>, all: set<T>)
    requires TotalOn(cmp, all) && Within(s, all)
    ensures Sorted(cmp, SortBy(cmp, s))
  {
    if s != [] {
      SortBySorts(cmp, s[1..], all);
      SameElements(SortBy(cmp, s[1..]), s[1..]);
      InsertSorts(cmp, s[0], SortBy(cmp, s[1..]), all);
    }
  }

  lemma SameTails<T>(a: seq<T>, b: seq<T>)
    requires multiset(a) == multiset(b) && a != [] && b != [] && a[0] == b[0]
    ensures multiset(a[1..]) == multiset(b[1..])
  {
    assert a == [a[0]] + a[1..] && b == [b[0]] + b[1..];
    assert multiset(a[1..]) == multiset(a) - multiset{a[0]};
    assert multiset(b[1..]) == multiset(b) - multiset{b[0]};
  }

  /** When the comparator tells elements apart, only one arrangement is sorted. */
  lemma {:induction false} SortedIsUnique<T(!new)>(cmp: (T, T) -> Ordering, a: seq<T>, b: seq<T>, all: set<T>)
    requires multiset(a) == multiset(b) && Sorted(cmp, a) && Sorted(cmp, b)
    requires TotalOn(cmp, all) && TellsApart(cmp, all) && Within(a, all)
    ensures a == b
    decreases |a|
  {
    SameElements(a, b);
    if a != [] {
      HeadsAgree(cmp, a, b, all);
      SameTails(a, b);
      hide TotalOn, TellsApart, LowerBound;
      SortedIsUnique(cmp, a[1..], b[1..], all);
      assert a == [a[0]] + a[1..] && b == [b[0]] + b[1..];
    }
  }

  lemma HeadsAgree<T(!new)>(cmp: (T, T) -> Ordering, a: seq<T>, b: seq<T>, all: set<T>)
    requires a != [] && b != [] && forall e :: e in a <==> e in b
    requires Sorted(cmp, a) && Sorted(cmp, b)
    requires TotalOn(cmp, all) && TellsApart(cmp, all) && Within(a, all)
    ensures a[0] == b[0]
  {
    assert a[0] in b && b[0] in a;
    assert forall e :: e in a ==> e == a[0] || e in a[1..];
    assert forall e :: e in b ==> e == b[0] || e in b[1..];
  }

  // ----- In-place selection -----

  lemma SwappedElements<T>(s: seq<T>, t: seq<T>, i: nat, j: nat)
    requires i < |s| && j < |s| && t == s[i := s[j]][j := s[i]]
    ensures multiset(t) == multiset(s)
  {
  }

  /** A swap within a stretch keeps the elements of the stretch. */
  lemma SwappedWithin<T>(s: seq<T>, t: seq<T>, i: nat, j: nat, lo: nat, hi: nat)
    requires lo <= i < hi <= |s| && lo <= j < hi && |t| == |s|
    requires t[i] == s[j] && t[j] == s[i]
    requires forall k :: 0 <= k < |s| && k != i && k != j ==> t[k] == s[k]
    ensures multiset(t[lo..hi]) == multiset(s[lo..hi])
  {
    SwappedElements(s[lo..hi], t[lo..hi], i - lo, j - lo);
  }

  method Swap<T>(a: array<T>, i: nat, j: nat, ghost lo: nat, ghost hi: nat)
    requires lo <= i < hi <= a.Length && lo <= j < hi
    modifies a
    ensures a[i] == old(a[j]) && a[j] == old(a[i])
    ensures forall k :: 0 <= k < a.Length && k != i && k != j ==> a[k] == old(a[k])
    ensures multiset(a[lo..hi]) == multiset(old(a[lo..hi]))
  {
    ghost var before := a[..];
    a[i], a[j] := a[j], a[i];
    SwappedWithin(before, a[..], i, j, lo, hi);
    SliceOf(a, lo, hi);
    assert before[lo..hi] == old(a[lo..hi]);
  }

  lemma SliceOf<T>(a: array<T>, lo: nat, hi: nat)
    requires lo <= hi <= a.Length
    ensures a[lo..hi] == a[..][lo..hi]
  {
  }

  /** Moves what sorts before the last element of `a[lo..hi]` to the front, and that element
      between the two halves. */
  method Partition<T>(a: array<T>, lo: nat, hi: nat, cmp: (T, T) -> Ordering) returns (p: nat)
    requires lo < hi <= a.Length
    modifies a
    ensures lo <= p < hi
    ensures forall i :: (0 <= i < lo || hi <= i < a.Length) ==> a[i] == old(a[i])
    ensures multiset(a[lo..hi]) == multiset(old(a[lo..hi]))
    ensures forall i :: lo <= i < p ==> cmp(a[i], a[p]) == Less
    ensures forall i :: p < i < hi ==> cmp(a[i], a[p]) != Less
  {
    var pivot := a[hi - 1];
    p := lo;
    for j := lo to hi - 1
      invariant lo <= p <= j
      invariant a[hi - 1] == pivot
      invariant forall i :: (0 <= i < lo || hi <= i < a.Length) ==> a[i] == old(a[i])
      invariant multiset(a[lo..hi]) == multiset(old(a[lo..hi]))
      invariant forall i :: lo <= i < p ==> cmp(a[i], pivot) == Less
      invariant forall i :: p <= i < j ==> cmp(a[i], pivot) != Less
    {
      if cmp(a[j], pivot) == Less {
        Swap(a, p, j, lo, hi);
        p := p + 1;
      }
    }
    Swap(a, p, hi - 1, lo, hi);
  }

  /** Nothing before position `m` sorts after anything from it on. */
  ghost predicate SplitAt<T(!new)>(cmp: (T, T) -> Ordering, s: seq<T>, m: nat)
  {
    forall i, j :: 0 <= i < m <= j < |s| ==> cmp(s[i], s[j]) != Greater
  }

  /** `t` is `s` with `s[lo..hi]` rearranged. */
  ghost predicate Rearranged<T>(s: seq<T>, t: seq<T>, lo: nat, hi: nat)
  {
    && |s| == |t| && lo <= hi <= |s|
    && multiset(t[lo..hi]) == multiset(s[lo..hi])
    && forall i :: (0 <= i < lo || hi <= i < |s|) ==> t[i] == s[i]
  }

  lemma RearrangedElements<T>(s: seq<T>, t: seq<T>, lo: nat, hi: nat)
    requires Rearranged(s, t, lo, hi)
    ensures multiset(t) == multiset(s)
    ensures forall i :: lo <= i < hi ==> t[i] in s[lo..hi]
  {
    assert s == s[..lo] + s[lo..hi] + s[hi..];
    assert t == t[..lo] + t[lo..hi] + t[hi..];
    assert s[..lo] == t[..lo] && s[hi..] == t[hi..];
    SameElements(t[lo..hi], s[lo..hi]);
    forall i | lo <= i < hi ensures t[i] in s[lo..hi] {
      assert t[i] == t[lo..hi][i - lo];
    }
  }

  lemma RearrangedStaysSplit<T(!new)>(cmp: (T, T) -> Ordering, s: seq<T>, t: seq<T>, lo: nat, hi: nat)
    requires Rearranged(s, t, lo, hi) && SplitAt(cmp, s, lo) && SplitAt(cmp, s, hi)
    ensures SplitAt(cmp, t, lo) && SplitAt(cmp, t, hi)
  {
    RearrangedElements(s, t, lo, hi);
    forall i | lo <= i < hi ensures exists k :: lo <= k < hi && s[k] == t[i] {
      assert t[i] in s[lo..hi];
    }
  }

  lemma PivotSplits<T(!new)>(cmp: (T, T) -> Ordering, s: seq<T>, lo: nat, p: nat, hi: nat, all: set<T>)
    requires lo <= p < hi <= |s| && TotalOn(cmp, all) && Within(s, all)
    requires SplitAt(cmp, s, lo) && SplitAt(cmp, s, hi)
    requires forall i :: lo <= i < p ==> cmp(s[i], s[p]) == Less
    requires forall i :: p < i < hi ==> cmp(s[i], s[p]) != Less
    ensures SplitAt(cmp, s, p) && SplitAt(cmp, s, p + 1)
  {
    forall i | p < i < hi ensures cmp(s[p], s[i]) != Greater {
      assert s[i] in all && s[p] in all;
    }
    forall i, j | 0 <= i <= p <= j < |s| && i < j ensures cmp(s[i], s[j]) != Greater {
      if i < lo || hi <= j {
      } else {
        assert s[i] in all && s[p] in all && s[j] in all;
      }
    }
  }

  /** `select_nth_unstable_by`: afterwards nothing up to position `k` sorts after anything
      beyond it. */
  method SelectNth<T(!new)>(a: array<T>, k: nat, cmp: (T, T) -> Ordering, ghost all: set<T>)
    requires k < a.Length && TotalOn(cmp, all) && Within(a[..], all)
    modifies a
    ensures multiset(a[..]) == multiset(old(a[..]))
    ensures SplitAt(cmp, a[..], k) && SplitAt(cmp, a[..], k + 1)
  {
    var lo, hi := 0, a.Length;
    while hi - lo > 1
      invariant lo <= k < hi <= a.Length
      invariant multiset(a[..]) == multiset(old(a[..]))
      invariant Within(a[..], all)
      invariant SplitAt(cmp, a[..], lo) && SplitAt(cmp, a[..], hi)
    {
      ghost var before, a0 := a[..], a[lo..hi];
      assert before[lo..hi] == a0;
      assert forall i :: 0 <= i < a.Length ==> a[i] in a[..];
      var p := Partition(a, lo, hi, cmp);
      assert a[..][lo..hi] == a[lo..hi];
      assert Rearranged(before, a[..], lo, hi);
      RearrangedElements(before, a[..], lo, hi);
      RearrangedStaysSplit(cmp, before, a[..], lo, hi);
      SameElements(before, a[..]);
      PivotSplits(cmp, a[..], lo, p, hi, all);
      if k < p {
        hi := p;
      } else if p < k {
        lo := p + 1;
      } else {
        return;
      }
    }
  }

  // ----- The best k -----

  lemma {:induction false} SortedConcat<T(!new)>(cmp: (T, T) -> Ordering, low: seq<T>, high: seq<T>)
    requires Sorted(cmp, low) && Sorted(cmp, high)
    requires forall x, y :: x in low && y in high ==> cmp(x, y) != Greater
    ensures Sorted(cmp, low + high)
  {
    if low == [] {
      assert low + high == high;
    } else {
      assert low[0] in low && forall e :: e in low[1..] ==> e in low;
      SortedConcat(cmp, low[1..], high);
      assert (low + high)[1..] == low[1..] + high;
    }
  }

  lemma SidesBelow<T(!new)>(cmp: (T, T) -> Ordering, s: seq<T>, m: nat, low: seq<T>, high: seq<T>)
    requires m <= |s| && SplitAt(cmp, s, m)
    requires forall e :: e in low ==> e in s[..m]
    requires forall e :: e in high ==> e in s[m..]
    ensures forall x, y :: x in low && y in high ==> cmp(x, y) != Greater
  {
    forall x, y | x in low && y in high ensures cmp(x, y) != Greater {
      assert x in s[..m] && y in s[m..];
      var i :| 0 <= i < m && s[i] == x;
      var j :| m <= j < |s| && s[j] == y;
    }
  }

  /** Sorting the two sides of a split separately sorts the whole. */
  lemma SortSides<T(!new)>(cmp: (T, T) -> Ordering, s: seq<T>, m: nat, all: set<T>)
    requires m <= |s| && SplitAt(cmp, s, m) && TotalOn(cmp, all) && Within(s, all)
    ensures Sorted(cmp, SortBy(cmp, s[..m]) + SortBy(cmp, s[m..]))
    ensures multiset(SortBy(cmp, s[..m]) + SortBy(cmp, s[m..])) == multiset(s)
  {
    var low, high := SortBy(cmp, s[..m]), SortBy(cmp, s[m..]);
    assert s == s[..m] + s[m..];
    SortBySorts(cmp, s[..m], all);
    SortBySorts(cmp, s[m..], all);
    SameElements(low, s[..m]);
    SameElements(high, s[m..]);
    SidesBelow(cmp, s, m, low, high);
    SortedConcat(cmp, low, high);
  }

  /** `collect_top_k`.  The selection is unstable, so which of several equal elements it keeps
      is open; when the comparator tells elements apart there are none, and the answer is
      exactly the head of the full sort. */
  method CollectTopK<T(==,!new)>(items: seq<T>, k: nat, cmp: (T, T) -> Ordering) returns (best: seq<T>)
    requires TotalOn(cmp, set e | e in items)
    ensures Sorted(cmp, best) && |best| == Min(k, |items|)
    ensures exists rest :: multiset(best + rest) == multiset(items) && Sorted(cmp, best + rest)
    ensures TellsApart(cmp, set e | e in items) ==> best == SortBy(cmp, items)[..Min(k, |items|)]
  {
    ghost var all := set e | e in items;
    hide TotalOn, TellsApart, Sorted, SortBy;
    if k == 0 {
      best := [];
      SortBySorts(cmp, items, all);
      EmptyIsSorted(cmp);
      assert [] + SortBy(cmp, items) == SortBy(cmp, items);
      return;
    }
    if |items| <= k {
      best := SortBy(cmp, items);
      SortBySorts(cmp, items, all);
      assert best + [] == best;
      return;
    }
    var a := new T[|items|](i requires 0 <= i < |items| => items[i]);
    assert a[..] == items;
    SelectNth(a, k - 1, cmp, all);
    assert a[..][..k] == a[..k];
    best := SortBy(cmp, a[..k]);
    BestIsHead(cmp, items, a[..], k, all);
  }

  lemma EmptyIsSorted<T(!new)>(cmp: (T, T) -> Ordering)
    ensures Sorted(cmp, [])
  {
  }

  /** What sorting the selected side gives. */
  lemma BestIsHead<T(!new)>(cmp: (T, T) -> Ordering, items: seq<T>, s: seq<T>, k: nat, all: set<T>)
    requires TotalOn(cmp, all) && Within(items, all) && multiset(s) == multiset(items)
    requires k <= |s| && SplitAt(cmp, s, k)
    ensures |s| == |items|
    ensures var best := SortBy(cmp, s[..k]);
      && Sorted(cmp, best) && |best| == k
      && (exists rest :: multiset(best + rest) == multiset(items) && Sorted(cmp, best + rest))
      && (TellsApart(cmp, all) ==> best == SortBy(cmp, items)[..k])
  {
    hide TotalOn, TellsApart, Sorted, SortBy, SplitAt;
    SameElements(s, items);
    var best, rest := SortBy(cmp, s[..k]), SortBy(cmp, s[k..]);
    SortSides(cmp, s, k, all);
    SortedHead(cmp, best, rest);
    if TellsApart(cmp, all) {
      SortBySorts(cmp, items, all);
      SameElements(best + rest, items);
      SortedIsUnique(cmp, best + rest, SortBy(cmp, items), all);
    }
  }

  lemma {:induction false} SortedHead<T(!new)>(cmp: (T, T) -> Ordering, a: seq<T>, b: seq<T>)
    requires Sorted(cmp, a + b)
    ensures Sorted(cmp, a)
  {
    if a != [] {
      assert (a + b)[1..] == a[1..] + b;
      SortedHead(cmp, a[1..], b);
    }
  }
}
