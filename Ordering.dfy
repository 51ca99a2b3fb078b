/** The descending merge sort both programs use on `(key, item)` pairs: a
    merge that takes from the left list while its key is at least the right
    one's, and the top-down sort built on it. The functions here are the
    specification the imperative merges are proved against; the lemmas show
    the sort is a stable, non-increasing permutation whose first element is
    the first maximum of its input. */
module Ordering {
  import opened Ranking

  /** Non-increasing on the key. */
  predicate SortedDesc<T>(s: seq<(int, T)>) {
    forall i, j | 0 <= i < j < |s| :: s[i].0 >= s[j].0
  }

  /** The pairs of `s` with key `k`, in their order in `s`. */
  function WithKey<T>(s: seq<(int, T)>, k: int): seq<(int, T)> {
    if s == [] then []
    else (if s[0].0 == k then [s[0]] else []) + WithKey(s[1..], k)
  }

  /** `out` keeps the relative order of every group of equal keys of `s`. */
  ghost predicate Stable<T>(out: seq<(int, T)>, s: seq<(int, T)>) {
    forall k :: WithKey(out, k) == WithKey(s, k)
  }

  function Keys<T>(s: seq<(int, T)>): (ks: seq<int>)
    ensures |ks| == |s| && forall i | 0 <= i < |s| :: ks[i] == s[i].0
  {
    seq(|s|, i requires 0 <= i < |s| => s[i].0)
  }

  /** `merge(left, right)`: the smaller heads wait, ties go to the left. */
  function Merge<T>(l: seq<(int, T)>, r: seq<(int, T)>): seq<(int, T)>
    decreases |l| + |r|
  {
    if l == [] then r
    else if r == [] then l
    else if l[0].0 >= r[0].0 then [l[0]] + Merge(l[1..], r)
    else [r[0]] + Merge(l, r[1..])
  }

  /** `merge_sort`: split at `len // 2`, sort both halves, merge. */
  function MergeSort<T>(s: seq<(int, T)>): seq<(int, T)>
    decreases |s|
  {
    if |s| <= 1 then s
    else Merge(MergeSort(s[..|s| / 2]), MergeSort(s[|s| / 2..]))
  }

  // ---------------------------------------------------------------------------
  // Merge

  /** Filtering by key distributes over concatenation. */
  lemma {:induction false} WithKeyAppend<T>(a: seq<(int, T)>, b: seq<(int, T)>, k: int)
    ensures WithKey(a + b, k) == WithKey(a, k) + WithKey(b, k)
  {
    if a == [] {
      assert a + b == b;
    } else {
      var head := if a[0].0 == k then [a[0]] else [];
      assert (a + b)[0] == a[0];
      assert (a + b)[1..] == a[1..] + b;
      assert WithKey(a + b, k) == head + WithKey(a[1..] + b, k);
      WithKeyAppend(a[1..], b, k);
      assert head + (WithKey(a[1..], k) + WithKey(b, k)) == (head + WithKey(a[1..], k)) + WithKey(b, k);
    }
  }

  /** A list whose keys are all below `k` holds no pair with key `k`. */
  lemma {:induction false} WithKeyAbsent<T>(s: seq<(int, T)>, k: int)
    requires forall i | 0 <= i < |s| :: s[i].0 < k
    ensures WithKey(s, k) == []
  {
    if s != [] {
      WithKeyAbsent(s[1..], k);
    }
  }

  /** Merging loses and invents nothing. */
  lemma {:induction false} MergePermutes<T>(l: seq<(int, T)>, r: seq<(int, T)>)
    ensures multiset(Merge(l, r)) == multiset(l) + multiset(r)
    decreases |l| + |r|
  {
    if l != [] && r != [] {
      if l[0].0 >= r[0].0 {
        var rest := Merge(l[1..], r);
        assert Merge(l, r) == [l[0]] + rest;
        MergePermutes(l[1..], r);
        assert l == [l[0]] + l[1..];
        assert multiset(l) == multiset([l[0]]) + multiset(l[1..]);
        assert multiset([l[0]] + rest) == multiset([l[0]]) + multiset(rest);
      } else {
        var rest := Merge(l, r[1..]);
        assert Merge(l, r) == [r[0]] + rest;
        MergePermutes(l, r[1..]);
        assert r == [r[0]] + r[1..];
        assert multiset(r) == multiset([r[0]]) + multiset(r[1..]);
        assert multiset([r[0]] + rest) == multiset([r[0]]) + multiset(rest);
      }
    }
  }

  lemma LeadSorted<T>(x: (int, T), s: seq<(int, T)>)
    requires SortedDesc(s) && (s == [] || x.0 >= s[0].0)
    ensures SortedDesc([x] + s)
  {
    forall i, j | 0 <= i < j < |[x] + s| ensures ([x] + s)[i].0 >= ([x] + s)[j].0 {
      if i == 0 && j > 1 {
        assert s[0].0 >= s[j - 1].0;
      }
    }
  }

  /** Merging two non-increasing lists gives a non-increasing list that
      starts with one of their heads. */
  lemma {:induction false} MergeSorted<T>(l: seq<(int, T)>, r: seq<(int, T)>)
    requires SortedDesc(l) && SortedDesc(r)
    ensures SortedDesc(Merge(l, r))
    ensures Merge(l, r) != [] ==> (l != [] && Merge(l, r)[0] == l[0]) || (r != [] && Merge(l, r)[0] == r[0])
    decreases |l| + |r|
  {
    if l != [] && r != [] {
      if l[0].0 >= r[0].0 {
        MergeSorted(l[1..], r);
        if |l| > 1 {
          assert l[0].0 >= l[1].0;
        }
        LeadSorted(l[0], Merge(l[1..], r));
      } else {
        MergeSorted(l, r[1..]);
        if |r| > 1 {
          assert r[0].0 >= r[1].0;
        }
        LeadSorted(r[0], Merge(l, r[1..]));
      }
    }
  }

  /** Among equal keys the merge puts all of the left list's pairs first,
      each list in its own order: `>=` prefers the left. */
  lemma {:induction false} MergeStable<T>(l: seq<(int, T)>, r: seq<(int, T)>, k: int)
    requires SortedDesc(l)
    ensures WithKey(Merge(l, r), k) == WithKey(l, k) + WithKey(r, k)
    decreases |l| + |r|
  {
    if l != [] && r != [] {
      if l[0].0 >= r[0].0 {
        MergeStable(l[1..], r, k);
      } else {
        MergeStable(l, r[1..], k);
        if r[0].0 == k {
          WithKeyAbsent(l, k);
        }
      }
    }
  }

  // ---------------------------------------------------------------------------
  // Sort

  /** The sort is a stable, non-increasing permutation of its input. */
  lemma {:induction false} MergeSortCorrect<T>(s: seq<(int, T)>)
    ensures SortedDesc(MergeSort(s))
    ensures multiset(MergeSort(s)) == multiset(s)
    ensures Stable(MergeSort(s), s)
    decreases |s|
  {
    if |s| > 1 {
      var a, b := s[..|s| / 2], s[|s| / 2..];
      assert s == a + b;
      MergeSortCorrect(a);
      MergeSortCorrect(b);
      MergeSorted(MergeSort(a), MergeSort(b));
      MergePermutes(MergeSort(a), MergeSort(b));
      forall k ensures WithKey(MergeSort(s), k) == WithKey(s, k) {
        MergeStable(MergeSort(a), MergeSort(b), k);
        WithKeyAppend(a, b, k);
      }
    }
  }

  /** The first pair with key `k` is the one at the first index holding it. */
  lemma {:induction false} WithKeyFirst<T>(s: seq<(int, T)>, k: int, a: nat)
    requires a < |s| && s[a].0 == k
    requires forall j | 0 <= j < a :: s[j].0 != k
    ensures WithKey(s, k) != [] && WithKey(s, k)[0] == s[a]
  {
    if a > 0 {
      WithKeyFirst(s[1..], k, a - 1);
    }
  }

  /** A stable non-increasing permutation starts with the first pair of
      greatest key, the one a left-to-right strict `>` scan would keep. */
  lemma FirstOfStableSort<T>(out: seq<(int, T)>, s: seq<(int, T)>)
    requires s != [] && SortedDesc(out) && multiset(out) == multiset(s) && Stable(out, s)
    ensures out != [] && out[0] == s[ArgMax(Keys(s))]
    ensures out[0].0 == MaxOf(Keys(s))
  {
    var ks := Keys(s);
    var a := ArgMax(ks);
    ArgMaxIsFirstMax(ks);
    MaxOfIsMax(ks);
    var m := MaxOf(ks);
    assert s[a] in multiset(out);
    assert out != [];
    var i :| 0 <= i < |out| && out[i] == s[a];
    assert out[0] in multiset(s);
    var j :| 0 <= j < |s| && s[j] == out[0];
    assert out[0].0 == m by {
      assert ks[j] <= m;
      if i > 0 {
        assert out[0].0 >= out[i].0;
      }
    }
    WithKeyFirst(out, m, 0);
    forall j | 0 <= j < a ensures s[j].0 != m {
      assert ks[j] < m;
    }
    WithKeyFirst(s, m, a);
    assert WithKey(out, m) == WithKey(s, m);
  }

  /** The sorted list starts with the input's first pair of greatest key. */
  lemma MergeSortFirst<T>(s: seq<(int, T)>)
    requires s != []
    ensures MergeSort(s) != [] && MergeSort(s)[0] == s[ArgMax(Keys(s))]
    ensures MergeSort(s)[0].0 == MaxOf(Keys(s))
  {
    MergeSortCorrect(s);
    FirstOfStableSort(MergeSort(s), s);
  }
  // ---------------------------------------------------------------------------
  // The imperative merge and the sort built on it

  /** `merge`: walk both lists with indices `i` and `j`, appending the head
      with the larger key (the left one on a tie), then the rest of each. */
  method MergeLists<T>(left: seq<(int, T)>, right: seq<(int, T)>) returns (result: seq<(int, T)>)
    ensures result == Merge(left, right)
    ensures multiset(result) == multiset(left) + multiset(right)
    ensures SortedDesc(left) && SortedDesc(right) ==> SortedDesc(result)
  {
    result := [];
    var i, j := 0, 0;
    while i < |left| && j < |right|
      invariant 0 <= i <= |left| && 0 <= j <= |right|
      invariant result + Merge(left[i..], right[j..]) == Merge(left, right)
      decreases |left| - i + |right| - j
    {
      MergeStep(left, right, i, j);
      if left[i].0 >= right[j].0 {
        assert result + Merge(left[i..], right[j..]) == (result + [left[i]]) + Merge(left[i + 1..], right[j..]);
        result := result + [left[i]];
        i := i + 1;
      } else {
        assert result + Merge(left[i..], right[j..]) == (result + [right[j]]) + Merge(left[i..], right[j + 1..]);
        result := result + [right[j]];
        j := j + 1;
      }
    }
    assert result + left[i..] + right[j..] == Merge(left, right) by {
      if i == |left| {
        assert left[i..] == [];
      } else {
        assert right[j..] == [];
      }
    }
    result := AppendRest(result, left, i);
    result := AppendRest(result, right, j);
    assert result == Merge(left, right);
    MergePermutes(left, right);
    if SortedDesc(left) && SortedDesc(right) {
      MergeSorted(left, right);
    }
  }

  /** The trailing loops of `merge`: append `rest[k..]` one element at a
      time. */
  method AppendRest<T>(prefix: seq<T>, rest: seq<T>, k: int) returns (result: seq<T>)
    requires 0 <= k <= |rest|
    ensures result == prefix + rest[k..]
  {
    result := prefix;
    var i := k;
    while i < |rest|
      invariant k <= i <= |rest|
      invariant result + rest[i..] == prefix + rest[k..]
    {
      assert rest[i..] == [rest[i]] + rest[i + 1..];
      assert result + rest[i..] == (result + [rest[i]]) + rest[i + 1..];
      result := result + [rest[i]];
      i := i + 1;
    }
  }

  /** One step of the merge loop appends the head it takes to the output. */
  lemma MergeStep<T>(left: seq<(int, T)>, right: seq<(int, T)>, i: int, j: int)
    requires 0 <= i < |left| && 0 <= j < |right|
    ensures Merge(left[i..], right[j..]) ==
      if left[i].0 >= right[j].0 then [left[i]] + Merge(left[i + 1..], right[j..])
      else [right[j]] + Merge(left[i..], right[j + 1..])
  {
    assert left[i..][0] == left[i] && left[i..][1..] == left[i + 1..];
    assert right[j..][0] == right[j] && right[j..][1..] == right[j + 1..];
  }

  /** `merge_sort` / `merge_sort_components`: a stable, non-increasing
      permutation of the input. */
  method MergeSortPairs<T>(s: seq<(int, T)>) returns (sorted: seq<(int, T)>)
    ensures sorted == MergeSort(s)
    ensures SortedDesc(sorted) && multiset(sorted) == multiset(s) && Stable(sorted, s)
    decreases |s|
  {
    MergeSortCorrect(s);
    if |s| <= 1 {
      return s;
    }
    var mid := |s| / 2;
    var left := MergeSortPairs(s[..mid]);
    var right := MergeSortPairs(s[mid..]);
    sorted := MergeLists(left, right);
  }
}
