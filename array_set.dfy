/**
 * `ArraySet`: a sorted set backed by an `ArrayList` that is kept strictly
 * increasing under the set's comparator.  Elements are modelled as `int`
 * under their natural order, which is the comparator of a set created
 * without one.  Membership is decided by binary search; `add` inserts at the
 * insertion point the search reports; `addAll` of a set sorted by the same
 * comparator merges the two lists recursively, in place, through sub-list
 * views of the backing list.
 */
module ArraySets {
  import opened JavaLang

  // ---------------------------------------------------------------------
  // Sorted sequences
  // ---------------------------------------------------------------------

  /** The representation invariant of the backing list. */
  predicate StrictlySorted(s: seq<int>)
  {
    forall i, j | 0 <= i < j < |s| :: s[i] < s[j]
  }

  /** The set a list stands for. */
  function Elems(s: seq<int>): set<int>
  {
    set x | x in s
  }

  predicate Below(s: seq<int>, v: int)
  {
    forall i | 0 <= i < |s| :: s[i] < v
  }

  predicate Above(s: seq<int>, v: int)
  {
    forall i | 0 <= i < |s| :: s[i] > v
  }

  /** `w` is the sorted union of `a` and `b`: what merging `b` into `a` yields. */
  predicate MergedInto(w: seq<int>, a: seq<int>, b: seq<int>)
  {
    StrictlySorted(w) && Elems(w) == Elems(a) + Elems(b)
  }

  lemma ElemsConcat(a: seq<int>, b: seq<int>)
    ensures Elems(a + b) == Elems(a) + Elems(b)
  {
    forall x | x in Elems(a) + Elems(b)
      ensures x in Elems(a + b)
    {
      if x in a {
        var i :| 0 <= i < |a| && a[i] == x;
        assert (a + b)[i] == x;
      } else {
        var i :| 0 <= i < |b| && b[i] == x;
        assert (a + b)[|a| + i] == x;
      }
    }
  }

  /** Everything left of a position in a sorted list is smaller than what is there. */
  lemma SortedSplit(s: seq<int>, k: nat)
    requires StrictlySorted(s) && k < |s|
    ensures Below(s[..k], s[k]) && Above(s[k + 1..], s[k])
  {
  }

  /** A merge of two lists bounded above by `v` is bounded above by `v`. */
  lemma MergedBelow(w: seq<int>, a: seq<int>, b: seq<int>, v: int)
    requires Elems(w) == Elems(a) + Elems(b) && Below(a, v) && Below(b, v)
    ensures Below(w, v)
  {
    forall i | 0 <= i < |w|
      ensures w[i] < v
    {
      assert w[i] in Elems(w);
    }
  }

  /** A merge of two lists bounded below by `v` is bounded below by `v`. */
  lemma MergedAbove(w: seq<int>, a: seq<int>, b: seq<int>, v: int)
    requires Elems(w) == Elems(a) + Elems(b) && Above(a, v) && Above(b, v)
    ensures Above(w, v)
  {
    forall i | 0 <= i < |w|
      ensures w[i] > v
    {
      assert w[i] in Elems(w);
    }
  }

  /** Three sorted runs separated by the ends of the middle one form a sorted list. */
  lemma SortedJoin(a: seq<int>, m: seq<int>, b: seq<int>)
    requires StrictlySorted(a) && StrictlySorted(m) && StrictlySorted(b) && |m| > 0
    requires Below(a, m[0]) && Above(b, m[|m| - 1])
    ensures StrictlySorted(a + m + b)
  {
    var s := a + m + b;
    forall i, j | 0 <= i < j < |s|
      ensures s[i] < s[j]
    {
      if i < |a| && j >= |a| + |m| {
        assert s[i] < m[0] <= m[|m| - 1] < s[j];
      }
    }
  }

  /** A strictly sorted list is determined by its elements. */
  lemma {:induction false} SortedUnique(a: seq<int>, b: seq<int>)
    requires StrictlySorted(a) && StrictlySorted(b) && Elems(a) == Elems(b)
    ensures a == b
    decreases |a|
  {
    DistinctCard(a);
    DistinctCard(b);
    if a != [] {
      assert a[0] in Elems(b) && b[0] in Elems(a);
      MinIsHead(a, b[0]);
      MinIsHead(b, a[0]);
      assert Elems(a[1..]) == Elems(a) - {a[0]} by { HeadTail(a); }
      assert Elems(b[1..]) == Elems(b) - {b[0]} by { HeadTail(b); }
      SortedUnique(a[1..], b[1..]);
      assert a == [a[0]] + a[1..] && b == [b[0]] + b[1..];
    }
  }

  lemma MinIsHead(s: seq<int>, x: int)
    requires StrictlySorted(s) && x in s
    ensures s[0] <= x
  {
  }

  lemma HeadTail(s: seq<int>)
    requires StrictlySorted(s) && |s| > 0
    ensures Elems(s[1..]) == Elems(s) - {s[0]}
  {
    assert s == [s[0]] + s[1..];
    ElemsConcat([s[0]], s[1..]);
  }

  /** No element occurs twice: what a Java `Set` iterates over. */
  predicate Distinct(s: seq<int>)
  {
    forall i, j | 0 <= i < j < |s| :: s[i] != s[j]
  }

  /** A list without repetitions has as many elements as the set it stands for. */
  lemma {:induction false} DistinctCard(s: seq<int>)
    requires Distinct(s)
    ensures |Elems(s)| == |s|
    decreases |s|
  {
    if s != [] {
      assert s == [s[0]] + s[1..];
      ElemsConcat([s[0]], s[1..]);
      assert Elems([s[0]]) == {s[0]};
      assert s[0] !in Elems(s[1..]);
      DistinctCard(s[1..]);
    }
  }

  /** A subset as large as its superset is the superset. */
  lemma SubsetEqualCard(a: set<int>, b: set<int>)
    requires a <= b && |a| == |b|
    ensures a == b
  {
    assert b == a + (b - a);
    assert a * (b - a) == {};
    assert |b - a| == 0;
  }

  /** Growing a prefix by one position adds that position's element. */
  lemma ElemsSnoc(s: seq<int>, i: nat)
    requires i < |s|
    ensures Elems(s[..i + 1]) == Elems(s[..i]) + {s[i]}
  {
    assert s[..i + 1] == s[..i] + [s[i]];
    ElemsConcat(s[..i], [s[i]]);
    assert Elems([s[i]]) == {s[i]};
  }

  /** The positions before `i` of a sorted list hold exactly its elements below `s[i]`. */
  lemma PrefixBelow(s: seq<int>, i: nat)
    requires StrictlySorted(s) && i < |s|
    ensures Elems(s[..i]) == set x | x in s && x < s[i]
  {
    forall x | x in s && x < s[i]
      ensures x in Elems(s[..i])
    {
      var p :| 0 <= p < |s| && s[p] == x;
      assert s[..i][p] == x;
    }
  }

  /** The positions from `i` on of a sorted list hold exactly its elements from `s[i]` up. */
  lemma SuffixFrom(s: seq<int>, i: nat)
    requires StrictlySorted(s) && i < |s|
    ensures Elems(s[i..]) == set x | x in s && s[i] <= x
  {
    forall x | x in s && s[i] <= x
      ensures x in Elems(s[i..])
    {
      var p :| 0 <= p < |s| && s[p] == x;
      assert s[i..][p - i] == x;
    }
  }

  /** The positions from `i` to before `j` of a sorted list hold its elements in `[s[i], s[j])`. */
  lemma Between(s: seq<int>, i: nat, j: nat)
    requires StrictlySorted(s) && i <= j < |s|
    ensures Elems(s[i..j]) == set x | x in s && s[i] <= x < s[j]
  {
    forall x | x in s && s[i] <= x < s[j]
      ensures x in Elems(s[i..j])
    {
      var p :| 0 <= p < |s| && s[p] == x;
      assert s[i..j][p - i] == x;
    }
  }

  // ---------------------------------------------------------------------
  // The searches of the Java collections library
  // ---------------------------------------------------------------------

  /**
   * `Collections.binarySearch(s, key)` with the natural order: the index of
   * `key` if present, otherwise `-(insertion point) - 1`.
   */
  function BinarySearch(s: seq<int>, key: int): (r: int)
    requires StrictlySorted(s)
    ensures 0 <= r ==> r < |s| && s[r] == key
    ensures r < 0 ==> (-r - 1 <= |s| && key !in s &&
      Below(s[..-r - 1], key) && Above(s[-r - 1..], key))
  {
    SearchRange(s, key, 0, |s| - 1)
  }

  /** The loop of `Collections.binarySearch` on the range `[low, high]`. */
  function SearchRange(s: seq<int>, key: int, low: int, high: int): (r: int)
    requires StrictlySorted(s) && 0 <= low <= |s| && -1 <= high < |s| && low <= high + 1
    requires forall i | 0 <= i < low :: s[i] < key
    requires forall i | high < i < |s| :: s[i] > key
    ensures 0 <= r ==> r < |s| && s[r] == key
    ensures r < 0 ==> low <= -r - 1 <= high + 1
    ensures r < 0 ==> forall i | 0 <= i < -r - 1 :: s[i] < key
    ensures r < 0 ==> forall i | -r - 1 <= i < |s| :: s[i] > key
    decreases high - low
  {
    if low > high then
      -(low + 1)
    else
      var mid := (low + high) / 2;
      if s[mid] < key then
        SearchRange(s, key, mid + 1, high)
      else if s[mid] > key then
        SearchRange(s, key, low, mid - 1)
      else
        mid
  }

  /** `List.indexOf(x)`: the first position holding `x`, or -1. */
  function IndexOf(s: seq<int>, x: int): (i: int)
    ensures -1 <= i < |s|
    ensures i == -1 <==> x !in s
    ensures 0 <= i ==> s[i] == x && x !in s[..i]
  {
    if s == [] then -1
    else if s[0] == x then 0
    else
      var j := IndexOf(s[1..], x);
      assert s[1..] == s[1..][..|s| - 1];
      if j == -1 then -1
      else
        assert s[..j + 1] == [s[0]] + s[1..][..j];
        j + 1
  }

  // ---------------------------------------------------------------------
  // The steps of the merge
  // ---------------------------------------------------------------------

  /** Inserting `x` at its insertion point `k` keeps a list sorted and adds `x`. */
  lemma InsertAt(s: seq<int>, k: nat, x: int)
    requires StrictlySorted(s) && k <= |s|
    requires Below(s[..k], x) && Above(s[k..], x)
    ensures MergedInto(s[..k] + [x] + s[k..], s, [x])
  {
    SortedJoin(s[..k], [x], s[k..]);
    ElemsConcat(s[..k] + [x], s[k..]);
    ElemsConcat(s[..k], [x]);
    assert s == s[..k] + s[k..];
    ElemsConcat(s[..k], s[k..]);
  }

  /** Removing one position of a sorted list keeps it sorted and drops just that element. */
  lemma RemoveAt(s: seq<int>, i: nat)
    requires StrictlySorted(s) && i < |s|
    ensures StrictlySorted(s[..i] + s[i + 1..])
    ensures Elems(s[..i] + s[i + 1..]) == Elems(s) - {s[i]}
  {
    var r := s[..i] + s[i + 1..];
    forall p, q | 0 <= p < q < |r|
      ensures r[p] < r[q]
    {
      var p', q' := if p < i then p else p + 1, if q < i then q else q + 1;
      assert r[p] == s[p'] && r[q] == s[q'];
    }
    assert s == s[..i] + [s[i]] + s[i + 1..];
    ElemsConcat(s[..i] + [s[i]], s[i + 1..]);
    ElemsConcat(s[..i], [s[i]]);
    ElemsConcat(s[..i], s[i + 1..]);
    assert s[i] !in s[..i] + s[i + 1..];
  }

  /**
   * The merge of three runs: when everything merged on the left lies below
   * the run `m` and everything merged on the right above it, gluing the
   * three together merges the concatenations.
   */
  lemma MergeAround(left: seq<int>, m: seq<int>, right: seq<int>,
                    a1: seq<int>, a2: seq<int>, b1: seq<int>, b2: seq<int>)
    requires StrictlySorted(m) && |m| > 0
    requires MergedInto(left, a1, b1) && Below(a1, m[0]) && Below(b1, m[0])
    requires MergedInto(right, a2, b2) && Above(a2, m[|m| - 1]) && Above(b2, m[|m| - 1])
    ensures StrictlySorted(left + m + right)
    ensures Elems(left + m + right) == Elems(a1) + Elems(b1) + Elems(m) + Elems(a2) + Elems(b2)
  {
    MergedBelow(left, a1, b1, m[0]);
    MergedAbove(right, a2, b2, m[|m| - 1]);
    SortedJoin(left, m, right);
    ElemsConcat(left + m, right);
    ElemsConcat(left, m);
  }

  /** The elements of a list cut into three pieces. */
  lemma ElemsSplit3(s: seq<int>, i: nat, j: nat)
    requires i <= j <= |s|
    ensures Elems(s) == Elems(s[..i]) + Elems(s[i..j]) + Elems(s[j..])
  {
    assert s == s[..i] + s[i..j] + s[j..];
    ElemsConcat(s[..i] + s[i..j], s[j..]);
    ElemsConcat(s[..i], s[i..j]);
  }

  /**
   * The merge step when the middle element of `l2` was found in `w` at `i1`:
   * the common run `w[i1..i1b] == l2[i2..i2b]` separates what is merged to
   * its left from what is merged to its right.
   */
  lemma FoundStep(w: seq<int>, l2: seq<int>, i1: nat, i1b: nat, i2: nat, i2b: nat,
                  left: seq<int>, right: seq<int>)
    requires StrictlySorted(w) && StrictlySorted(l2)
    requires i1 < i1b <= |w| && i2 < i2b <= |l2| && w[i1..i1b] == l2[i2..i2b]
    requires MergedInto(left, w[..i1], l2[..i2]) && MergedInto(right, w[i1b..], l2[i2b..])
    ensures MergedInto(left + w[i1..i1b] + right, w, l2)
  {
    var m := w[i1..i1b];
    SortedSplit(w, i1);
    SortedSplit(l2, i2);
    assert Above(w[i1b..], m[|m| - 1]) by { SortedSplit(w, i1b - 1); }
    assert Above(l2[i2b..], m[|m| - 1]) by { SortedSplit(l2, i2b - 1); }
    MergeAround(left, m, right, w[..i1], w[i1b..], l2[..i2], l2[i2b..]);
    ElemsSplit3(w, i1, i1b);
    ElemsSplit3(l2, i2, i2b);
  }

  /**
   * In the same situation `l2` adds something to `w` iff it adds something
   * on the left of the common run or on its right.
   */
  lemma FoundFlag(w: seq<int>, l2: seq<int>, i1: nat, i1b: nat, i2: nat, i2b: nat)
    requires StrictlySorted(w) && StrictlySorted(l2)
    requires i1 < i1b <= |w| && i2 < i2b <= |l2| && w[i1..i1b] == l2[i2..i2b]
    ensures Elems(l2) <= Elems(w) <==>
      Elems(l2[..i2]) <= Elems(w[..i1]) && Elems(l2[i2b..]) <= Elems(w[i1b..])
  {
    ElemsSplit3(w, i1, i1b);
    ElemsSplit3(l2, i2, i2b);
    if Elems(l2) <= Elems(w) {
      SubsetBelow(w, l2, i1, i2);
      SubsetAbove(w, l2, i1b - 1, i2b - 1);
    }
  }

  /** What a sorted `l2` has below a common element, `w` has below it too. */
  lemma SubsetBelow(w: seq<int>, l2: seq<int>, i1: nat, i2: nat)
    requires StrictlySorted(w) && StrictlySorted(l2)
    requires i1 < |w| && i2 < |l2| && w[i1] == l2[i2]
    requires Elems(l2[..i2]) <= Elems(w)
    ensures Elems(l2[..i2]) <= Elems(w[..i1])
  {
    forall x | x in Elems(l2[..i2])
      ensures x in Elems(w[..i1])
    {
      assert x < l2[i2];
      var p :| 0 <= p < |w| && w[p] == x;
      assert w[..i1][p] == x;
    }
  }

  /** What a sorted `l2` has above a common element, `w` has above it too. */
  lemma SubsetAbove(w: seq<int>, l2: seq<int>, j1: nat, j2: nat)
    requires StrictlySorted(w) && StrictlySorted(l2)
    requires j1 < |w| && j2 < |l2| && w[j1] == l2[j2]
    requires Elems(l2[j2 + 1..]) <= Elems(w)
    ensures Elems(l2[j2 + 1..]) <= Elems(w[j1 + 1..])
  {
    var tail := l2[j2 + 1..];
    forall x | x in Elems(tail)
      ensures x in Elems(w[j1 + 1..])
    {
      assert x > l2[j2];
      var p :| 0 <= p < |w| && w[p] == x;
      assert w[j1 + 1..][p - j1 - 1] == x;
    }
  }

  /**
   * The merge step when the middle element `l2[i2]` is missing from `w` and
   * belongs before `w[i1]`: the run `l2[i2..i2b]` of elements below `w[i1]`
   * goes in between the two merged halves.
   */
  lemma GapStep(w: seq<int>, l2: seq<int>, i1: nat, i2: nat, i2b: nat,
                left: seq<int>, right: seq<int>)
    requires StrictlySorted(w) && StrictlySorted(l2)
    requires i1 < |w| && i2 < i2b <= |l2|
    requires Below(w[..i1], l2[i2]) && Above(w[i1..], l2[i2])
    requires l2[i2b - 1] < w[i1] && (i2b < |l2| ==> l2[i2b] >= w[i1])
    requires MergedInto(left, w[..i1], l2[..i2]) && MergedInto(right, w[i1..], l2[i2b..])
    ensures MergedInto(left + l2[i2..i2b] + right, w, l2)
  {
    var m := l2[i2..i2b];
    SortedSplit(l2, i2);
    assert Above(w[i1..], m[|m| - 1]);
    assert Above(l2[i2b..], m[|m| - 1]) by { SortedSplit(l2, i2b - 1); }
    MergeAround(left, m, right, w[..i1], w[i1..], l2[..i2], l2[i2b..]);
    assert w == w[..i1] + w[i1..];
    ElemsConcat(w[..i1], w[i1..]);
    ElemsSplit3(l2, i2, i2b);
  }

  /**
   * The merge step when the middle element `l2[i2]` lies above all of `w`:
   * the upper half of `l2` is appended after the merged lower halves.
   */
  lemma AppendStep(w: seq<int>, l2: seq<int>, i2: nat, left: seq<int>)
    requires StrictlySorted(w) && StrictlySorted(l2) && i2 < |l2|
    requires Below(w, l2[i2])
    requires MergedInto(left, w, l2[..i2])
    ensures MergedInto(left + l2[i2..], w, l2)
  {
    SortedSplit(l2, i2);
    MergedBelow(left, w, l2[..i2], l2[i2]);
    SortedJoin(left, l2[i2..], []);
    assert left + l2[i2..] + [] == left + l2[i2..];
    ElemsConcat(left, l2[i2..]);
    assert l2 == l2[..i2] + l2[i2..];
    ElemsConcat(l2[..i2], l2[i2..]);
  }

  lemma SortedPrefix(s: seq<int>, k: nat)
    requires StrictlySorted(s) && k <= |s|
    ensures StrictlySorted(s[..k])
  {
  }

  lemma SortedSuffix(s: seq<int>, k: nat)
    requires StrictlySorted(s) && k <= |s|
    ensures StrictlySorted(s[k..])
  {
  }

  /** Cutting a list built from three pieces gives the pieces back. */
  lemma Pieces(s: seq<int>, pre: seq<int>, a: seq<int>, rest: seq<int>)
    requires s == pre + a + rest
    ensures s[..|pre|] == pre && s[|pre|..|pre| + |a|] == a && s[|pre| + |a|..] == rest
  {
  }

  lemma SingletonSlice(s: seq<int>, i: nat, j: nat)
    requires i < |s| && j == i + 1
    ensures s[i..j] == [s[i]]
  {
  }

  /** Inserting `x` at position `k` of the window `w` between `pre` and `post`. */
  lemma SpliceWindow(s: seq<int>, pre: seq<int>, w: seq<int>, post: seq<int>, k: nat, x: seq<int>)
    requires s == pre + w + post && k <= |w|
    ensures s[..|pre| + k] + x + s[|pre| + k..] == pre + (w[..k] + x + w[k..]) + post
  {
    assert s[..|pre| + k] == pre + w[..k];
    assert s[|pre| + k..] == w[k..] + post;
  }

  /** Appending `t` to the window `w`, seen as the window `w[..k]` followed by the rest. */
  lemma AppendWindow(s: seq<int>, pre: seq<int>, w: seq<int>, post: seq<int>, k: nat, t: seq<int>)
    requires s == pre + w + post && k <= |w|
    ensures s[..|pre| + |w|] + t + s[|pre| + |w|..] == pre + w[..k] + (w[k..] + t + post)
  {
    assert s[..|pre| + |w|] == pre + w;
    assert s[|pre| + |w|..] == post;
    assert w == w[..k] + w[k..];
  }

  /** Inserting `x` right after the window `a` between `pre` and `right + post`. */
  lemma InsertAfterWindow(s: seq<int>, pre: seq<int>, a: seq<int>, right: seq<int>, post: seq<int>, x: seq<int>)
    requires s == (pre + a) + right + post
    ensures s[..|pre| + |a|] + x + s[|pre| + |a|..] == pre + a + (x + right + post)
  {
    assert s[..|pre| + |a|] == pre + a;
    assert s[|pre| + |a|..] == right + post;
  }

  /** The window `w` seen as the window `w[k..]` after a longer prefix. */
  lemma ShiftWindow(pre: seq<int>, w: seq<int>, k: nat, post: seq<int>)
    requires k <= |w|
    ensures pre + w + post == (pre + w[..k]) + w[k..] + post
  {
    assert w == w[..k] + w[k..];
  }

  /** Undoing `ShiftWindow` once the upper part has become `right`. */
  lemma UnshiftWindow(pre: seq<int>, w: seq<int>, i: nat, j: nat, right: seq<int>, post: seq<int>)
    requires i <= j <= |w|
    ensures (pre + w[..j]) + right + post == pre + w[..i] + (w[i..j] + right + post)
  {
    assert w[..j] == w[..i] + w[i..j];
  }

  lemma Regroup(pre: seq<int>, left: seq<int>, run: seq<int>, right: seq<int>, post: seq<int>)
    ensures pre + left + (run + right + post) == pre + (left + run + right) + post
  {
  }

  // ---------------------------------------------------------------------
  // The flag `addList` returns as written
  // ---------------------------------------------------------------------

  /** How many positions `w` from `i` and `l2` from `j` agree on. */
  function RunLength(w: seq<int>, l2: seq<int>, i: nat, j: nat): (n: nat)
    requires i <= |w| && j <= |l2|
    ensures i + n <= |w| && j + n <= |l2|
    ensures i < |w| && j < |l2| && w[i] == l2[j] ==> n > 0
    ensures forall k | i <= k < i + n :: w[k] == l2[k - i + j]
    ensures i + n == |w| || j + n == |l2| || w[i + n] != l2[j + n]
    decreases |w| - i
  {
    if i < |w| && j < |l2| && w[i] == l2[j] then 1 + RunLength(w, l2, i + 1, j + 1) else 0
  }

  /** The run `RunLength` measures, as two equal slices. */
  lemma RunSlices(w: seq<int>, l2: seq<int>, i: nat, j: nat)
    requires i <= |w| && j <= |l2|
    ensures w[i..i + RunLength(w, l2, i, j)] == l2[j..j + RunLength(w, l2, i, j)]
  {
    var n := RunLength(w, l2, i, j);
    var a, b := w[i..i + n], l2[j..j + n];
    assert forall k | 0 <= k < n :: a[k] == b[k];
  }

  /**
   * The flag `addList(w, l2)` returns as written.  Where the common run
   * reaches the end of `w`, the rest of `l2` is appended but the flag is the
   * left recursion's alone.  The recursive calls see the unmodified parts of
   * `w`: each merge only changes positions at or after its own window.
   */
  function AsWrittenFlag(w: seq<int>, l2: seq<int>): (modified: bool)
    requires StrictlySorted(w) && StrictlySorted(l2)
    decreases |l2|, 1
  {
    if |l2| == 0 then false
    else if |l2| == 1 then BinarySearch(w, l2[0]) < 0
    else
      var index2 := |l2| / 2;
      var index1 := BinarySearch(w, l2[index2]);
      if index1 >= 0 then AsWrittenFlagFound(w, l2, index1, index2)
      else true
  }

  /** The flag as written once `l2[index2]` was found at `w[index1]`. */
  function AsWrittenFlagFound(w: seq<int>, l2: seq<int>, index1: nat, index2: nat): (modified: bool)
    requires StrictlySorted(w) && StrictlySorted(l2)
    requires index1 < |w| && index2 < |l2| && w[index1] == l2[index2]
    decreases |l2|, 0
  {
    var n := RunLength(w, l2, index1, index2);
    var left := AsWrittenFlag(w[..index1], l2[..index2]);
    if index1 + n == |w| then left
    else AsWrittenFlag(w[index1 + n..], l2[index2 + n..]) || left
  }

  /** Where the flag as written is `true`, `l2` does add something to `w`. */
  lemma {:induction false} AsWrittenFlagSound(w: seq<int>, l2: seq<int>)
    requires StrictlySorted(w) && StrictlySorted(l2)
    ensures AsWrittenFlag(w, l2) ==> exists x :: x in l2 && x !in w
    decreases |l2|, 2
  {
    if |l2| >= 2 {
      var index2 := |l2| / 2;
      var index1 := BinarySearch(w, l2[index2]);
      if index1 >= 0 {
        AsWrittenFlagFoundSound(w, l2, index1, index2);
      }
    }
  }

  /** `AsWrittenFlagSound` once `l2[index2]` was found at `w[index1]`. */
  lemma {:induction false} AsWrittenFlagFoundSound(w: seq<int>, l2: seq<int>, index1: nat, index2: nat)
    requires StrictlySorted(w) && StrictlySorted(l2)
    requires index1 < |w| && index2 < |l2| && w[index1] == l2[index2]
    ensures AsWrittenFlagFound(w, l2, index1, index2) ==> exists x :: x in l2 && x !in w
    decreases |l2|, 1
  {
    var n := RunLength(w, l2, index1, index2);
    MissingBelow(w, l2, index1, index2);
    if index1 + n < |w| {
      MissingAbove(w, l2, index1 + n, index2 + n);
    }
  }

  /** What the lower recursion flags below a common element is missing from `w`. */
  lemma MissingBelow(w: seq<int>, l2: seq<int>, i1: nat, i2: nat)
    requires StrictlySorted(w) && StrictlySorted(l2)
    requires i1 < |w| && i2 < |l2| && w[i1] == l2[i2]
    ensures AsWrittenFlag(w[..i1], l2[..i2]) ==> exists x :: x in l2 && x !in w
    decreases |l2|, 0
  {
    if AsWrittenFlag(w[..i1], l2[..i2]) {
      AsWrittenFlagSound(w[..i1], l2[..i2]);
      var x :| x in l2[..i2] && x !in w[..i1];
      var q :| 0 <= q < i2 && l2[q] == x;
      assert x < w[i1];
      assert x in l2 && x !in w;
    }
  }

  /** What the upper recursion flags above a common run ending at `k1 - 1` is missing from `w`. */
  lemma MissingAbove(w: seq<int>, l2: seq<int>, k1: nat, k2: nat)
    requires StrictlySorted(w) && StrictlySorted(l2)
    requires 0 < k1 < |w| && 0 < k2 <= |l2| && w[k1 - 1] == l2[k2 - 1]
    ensures AsWrittenFlag(w[k1..], l2[k2..]) ==> exists x :: x in l2 && x !in w
    decreases |l2|, 0
  {
    if AsWrittenFlag(w[k1..], l2[k2..]) {
      AsWrittenFlagSound(w[k1..], l2[k2..]);
      var x :| x in l2[k2..] && x !in w[k1..];
      var q :| k2 <= q < |l2| && l2[q] == x;
      assert x > w[k1 - 1];
      assert x in l2 && x !in w;
    }
  }

  /**
   * Merging `[x, y, z]` into `[x, y]` appends `z`, yet the flag as written
   * is `false`: `addAll` then reports an unchanged set that did change.
   */
  lemma AddListFlagMissesAppend(x: int, y: int, z: int)
    requires x < y < z
    ensures !AsWrittenFlag([x, y], [x, y, z])
    ensures !(Elems([x, y, z]) <= Elems([x, y]))
  {
    var w, l2 := [x, y], [x, y, z];
    assert SearchRange(w, y, 1, 1) == 1;
    assert BinarySearch(w, y) == 1;
    assert RunLength(w, l2, 1, 1) == 1;
    assert w[..1] == [x] && l2[..1] == [x];
    assert BinarySearch([x], x) == 0;
    assert !AsWrittenFlag([x], [x]);
    assert AsWrittenFlagFound(w, l2, 1, 1) == AsWrittenFlag(w[..1], l2[..1]);
    assert AsWrittenFlag(w, l2) == AsWrittenFlagFound(w, l2, 1, 1);
    assert z in Elems(l2) && z !in Elems(w);
  }

  // ---------------------------------------------------------------------
  // The views of the sorted set
  // ---------------------------------------------------------------------

  /** The backing list of `headSet(to)`: everything before `to`, or everything when `to` is absent. */
  function HeadList(s: seq<int>, to: int): (h: seq<int>)
    requires StrictlySorted(s)
    ensures StrictlySorted(h)
    ensures to in s ==> Elems(h) == set x | x in s && x < to
    ensures to !in s ==> h == s
  {
    var i := IndexOf(s, to);
    if i == -1 then s
    else
      PrefixBelow(s, i);
      s[..i]
  }

  /** The backing list of `tailSet(from)`: everything from `from` on, or nothing when `from` is absent. */
  function TailList(s: seq<int>, from: int): (t: seq<int>)
    requires StrictlySorted(s)
    ensures StrictlySorted(t)
    ensures from in s ==> Elems(t) == set x | x in s && from <= x
    ensures from !in s ==> t == []
  {
    var i := IndexOf(s, from);
    if i == -1 then []
    else
      SuffixFrom(s, i);
      s[i..]
  }

  /**
   * The backing list of `subSet(from, to)`: nothing when `from` is absent,
   * everything from `from` on when `to` is absent, and otherwise the
   * elements in `[from, to)`, where `List.subList` throws when `to` comes
   * before `from`.
   */
  function SubList(s: seq<int>, from: int, to: int): (r: Result<seq<int>>)
    requires StrictlySorted(s)
    ensures r.Ok? ==> StrictlySorted(r.value)
    ensures r.Throw? ==> r.exception == IllegalArgument
    ensures from !in s ==> r == Ok([])
    ensures from in s && to !in s ==> r.Ok? && Elems(r.value) == set x | x in s && from <= x
    ensures from in s && to in s ==> (r.Throw? <==> to < from)
    ensures from in s && to in s && from <= to ==>
      r.Ok? && Elems(r.value) == set x | x in s && from <= x < to
  {
    var fromI := IndexOf(s, from);
    if fromI == -1 then Ok([])
    else
      var toI := IndexOf(s, to);
      if toI == -1 then
        SuffixFrom(s, fromI);
        Ok(s[fromI..])
      else if fromI > toI then Throw(IllegalArgument)
      else
        Between(s, fromI, toI);
        Ok(s[fromI..toI])
  }

  // ---------------------------------------------------------------------
  // The set
  // ---------------------------------------------------------------------

  class ArraySet {
    /** The elements, strictly increasing. */
    var list: seq<int>

    predicate Valid()
      reads this
    {
      StrictlySorted(list)
    }

    constructor ()
      ensures list == [] && Valid()
    {
      list := [];
    }

    /** `size()`: the number of elements of the set. */
    function Size(): (n: nat)
      reads this
      requires Valid()
      ensures n == |Elems(list)|
    {
      DistinctCard(list);
      |list|
    }

    /** `contains(obj)`: binary search for `obj`. */
    function Contains(obj: int): (r: bool)
      reads this
      requires Valid()
      ensures r <==> obj in Elems(list)
    {
      BinarySearch(list, obj) >= 0
    }

    /** `add(obj)`: inserts `obj` at the insertion point binary search reports, unless present. */
    method Add(obj: int) returns (added: bool)
      requires Valid()
      modifies this
      ensures Valid()
      ensures added <==> obj !in old(list)
      ensures Elems(list) == Elems(old(list)) + {obj}
      ensures |list| == |old(list)| + (if added then 1 else 0)
    {
      var index := BinarySearch(list, obj);
      if index >= 0 {
        return false;
      }
      index := -index - 1;
      InsertAt(list, index, obj);
      assert Elems([obj]) == {obj};
      list := list[..index] + [obj] + list[index..];
      return true;
    }

    /** `remove(obj)`: `ArrayList.remove` of the first, here the only, occurrence of `obj`. */
    method Remove(obj: int) returns (removed: bool)
      requires Valid()
      modifies this
      ensures Valid()
      ensures removed <==> obj in old(list)
      ensures Elems(list) == Elems(old(list)) - {obj}
      ensures removed ==> list == old(list)[..IndexOf(old(list), obj)] + old(list)[IndexOf(old(list), obj) + 1..]
      ensures !removed ==> list == old(list)
    {
      var i := IndexOf(list, obj);
      if i == -1 {
        return false;
      }
      RemoveAt(list, i);
      list := list[..i] + list[i + 1..];
      return true;
    }

    /**
     * `addAll(coll)`, where `coll` lists the collection in iteration order
     * and `sortedSame` tells whether it is a sorted set with the same
     * comparator: then the two lists are merged by `addList`, otherwise the
     * elements are added one by one.
     */
    method AddAll(coll: seq<int>, sortedSame: bool) returns (modified: bool)
      requires Valid()
      requires sortedSame ==> StrictlySorted(coll)
      modifies this
      ensures Valid()
      ensures Elems(list) == Elems(old(list)) + Elems(coll)
      ensures modified <==> !(Elems(coll) <= Elems(old(list)))
    {
      if sortedSame {
        ghost var merged;
        assert list == [] + list + [];
        modified, merged := AddList(0, |list|, coll, [], list, []);
        assert list == merged;
      } else {
        modified := false;
        var i := 0;
        while i < |coll|
          invariant Valid() && i <= |coll|
          invariant Elems(list) == Elems(old(list)) + Elems(coll[..i])
          invariant modified <==> !(Elems(coll[..i]) <= Elems(old(list)))
        {
          var added := Add(coll[i]);
          ElemsSnoc(coll, i);
          modified := modified || added;
          i := i + 1;
        }
        assert coll[..i] == coll;
      }
    }

    /**
     * `containsAll(coll)`, where `coll` lists the collection in iteration
     * order and `sortedSame` tells whether it is a sorted set with the same
     * comparator.
     */
    method ContainsAll(coll: seq<int>, sortedSame: bool) returns (r: bool)
      requires Valid()
      requires sortedSame ==> StrictlySorted(coll)
      ensures r <==> Elems(coll) <= Elems(list)
    {
      if sortedSame {
        r := ContainsAllSorted(coll);
      } else {
        r := ContainsAllUnsorted(coll);
      }
    }

    /**
     * The loop of `containsAll` for a sorted `coll`: each search starts from
     * the position after the previous hit, taken relative to the sub-list
     * searched, which lies at or before the absolute one, so no element is
     * missed.
     */
    method ContainsAllSorted(coll: seq<int>) returns (r: bool)
      requires Valid() && StrictlySorted(coll)
      ensures r <==> Elems(coll) <= Elems(list)
    {
      var min := 0;
      var sup := |list|;
      var i := 0;
      while i < |coll|
        invariant i <= |coll| && min <= sup == |list|
        invariant Elems(coll[..i]) <= Elems(list)
        invariant i == 0 ==> min == 0
        invariant 0 < i ==> forall k | 0 <= k < min :: list[k] <= coll[i - 1]
      {
        var sub := list[min..sup];
        var index := BinarySearch(sub, coll[i]);
        if index < 0 {
          assert coll[i] in Elems(coll);
          forall p | 0 <= p < |list|
            ensures list[p] != coll[i]
          {
            if p >= min {
              assert list[p] == sub[p - min];
            }
          }
          return false;
        }
        assert list[min + index] == coll[i];
        ElemsSnoc(coll, i);
        min := index + 1;
        i := i + 1;
      }
      assert coll[..i] == coll;
      return true;
    }

    /** The loop of `containsAll` for any other `coll`: `contains` of each element. */
    method ContainsAllUnsorted(coll: seq<int>) returns (r: bool)
      requires Valid()
      ensures r <==> Elems(coll) <= Elems(list)
    {
      var i := 0;
      while i < |coll|
        invariant i <= |coll| && Elems(coll[..i]) <= Elems(list)
      {
        if !Contains(coll[i]) {
          assert coll[i] in Elems(coll);
          return false;
        }
        ElemsSnoc(coll, i);
        i := i + 1;
      }
      assert coll[..i] == coll;
      return true;
    }

    /** `first()`: the least element, or `NoSuchElementException` on the empty set. */
    function First(): (r: Result<int>)
      reads this
      requires Valid()
      ensures r.Throw? <==> list == []
      ensures r.Throw? ==> r.exception == NoSuchElement
      ensures r.Ok? ==> r.value in list && forall x | x in list :: r.value <= x
    {
      if list == [] then Throw(NoSuchElement) else Ok(list[0])
    }

    /** `last()`: the greatest element, or `NoSuchElementException` on the empty set. */
    function Last(): (r: Result<int>)
      reads this
      requires Valid()
      ensures r.Throw? <==> list == []
      ensures r.Throw? ==> r.exception == NoSuchElement
      ensures r.Ok? ==> r.value in list && forall x | x in list :: x <= r.value
    {
      if list == [] then Throw(NoSuchElement) else Ok(list[|list| - 1])
    }

    /** `headSet(to)`: a new set of the elements before the position of `to`. */
    method HeadSet(to: int) returns (h: ArraySet)
      requires Valid()
      ensures fresh(h) && h.Valid()
      ensures h.list == HeadList(list, to)
    {
      var toI := IndexOf(list, to);
      if toI == -1 {
        toI := |list|;
      }
      h := new ArraySet();
      var ignored := h.AddAll(list[..toI], false);
      SortedUnique(h.list, list[..toI]);
    }

    /** `tailSet(from)`: a new set of the elements from the position of `from` on. */
    method TailSet(from: int) returns (t: ArraySet)
      requires Valid()
      ensures fresh(t) && t.Valid()
      ensures t.list == TailList(list, from)
    {
      var fromI := IndexOf(list, from);
      t := new ArraySet();
      if fromI == -1 {
        return;
      }
      var ignored := t.AddAll(list[fromI..], false);
      SortedUnique(t.list, list[fromI..]);
    }

    /** `subSet(from, to)`: a new set of the elements from the position of `from` to that of `to`. */
    method SubSet(from: int, to: int) returns (r: Result<ArraySet>)
      requires Valid()
      ensures r.Ok? <==> SubList(list, from, to).Ok?
      ensures r.Ok? ==> fresh(r.value) && r.value.Valid() && r.value.list == SubList(list, from, to).value
      ensures r.Throw? ==> r.exception == IllegalArgument
    {
      var fromI := IndexOf(list, from);
      if fromI == -1 {
        var empty := new ArraySet();
        return Ok(empty);
      }
      var toI := IndexOf(list, to);
      if toI == -1 {
        toI := |list|;
      }
      if fromI > toI {
        return Throw(IllegalArgument);
      }
      var result := new ArraySet();
      var ignored := result.AddAll(list[fromI..toI], false);
      SortedUnique(result.list, list[fromI..toI]);
      return Ok(result);
    }

    /**
     * `equals(obj)`, where `isSet` tells whether `obj` is a `Set`, `other`
     * lists it in iteration order and `sortedSame` tells whether it is a
     * sorted set with the same comparator: equal sizes, then `containsAll`.
     */
    method Equals(isSet: bool, other: seq<int>, sortedSame: bool) returns (r: bool)
      requires Valid()
      requires isSet ==> Distinct(other)
      requires sortedSame ==> StrictlySorted(other)
      ensures r <==> isSet && Elems(other) == Elems(list)
      ensures isSet && sortedSame ==> (r <==> other == list)
    {
      if !isSet {
        return false;
      }
      DistinctCard(list);
      DistinctCard(other);
      if |list| != |other| {
        return false;
      }
      r := ContainsAll(other, sortedSame);
      if r {
        SubsetEqualCard(Elems(other), Elems(list));
        if sortedSame {
          SortedUnique(other, list);
        }
      }
    }

    /** `clear()`. */
    method Clear()
      modifies this
      ensures list == [] && Valid()
    {
      list := [];
    }

    /**
     * `addList(list1, list2)` where `list1` is the window `list[lo..hi]` of
     * the backing list, a sub-list view: merges `list2` into the window,
     * which grows in place while the rest of the backing list, `pre` before
     * it and `post` after it, is shifted along unchanged.  The flag tells
     * whether the window changed.  `merged` is the new content of the window.
     */
    method AddList(lo: nat, hi: nat, list2: seq<int>, ghost pre: seq<int>, ghost w: seq<int>, ghost post: seq<int>)
      returns (modified: bool, ghost merged: seq<int>)
      requires list == pre + w + post && lo == |pre| && hi == |pre| + |w|
      requires StrictlySorted(w) && StrictlySorted(list2)
      modifies this
      ensures list == pre + merged + post
      ensures MergedInto(merged, w, list2)
      ensures modified <==> !(Elems(list2) <= Elems(w))
      decreases |list2|, 2
    {
      if |list2| == 0 {
        return false, w;
      }
      if |list2| == 1 {
        modified, merged := AddListSingle(lo, hi, list2[0], pre, w, post);
        assert list2 == [list2[0]];
        assert Elems(list2) == {list2[0]};
        return;
      }
      var index2 := |list2| / 2;
      Pieces(list, pre, w, post);
      var index1 := BinarySearch(list[lo..hi], list2[index2]);
      if index1 >= 0 {
        modified, merged := AddListFound(lo, hi, list2, index1, index2, pre, w, post);
      } else {
        assert list2[index2] in Elems(list2);
        modified, merged := AddListMissing(lo, hi, list2, -1 - index1, index2, pre, w, post);
      }
    }

    /** `addList` of a one-element `list2`: `x` is inserted at its insertion point unless present. */
    method AddListSingle(lo: nat, hi: nat, x: int, ghost pre: seq<int>, ghost w: seq<int>, ghost post: seq<int>)
      returns (modified: bool, ghost merged: seq<int>)
      requires list == pre + w + post && lo == |pre| && hi == |pre| + |w|
      requires StrictlySorted(w)
      modifies this
      ensures list == pre + merged + post
      ensures MergedInto(merged, w, [x])
      ensures modified <==> x !in w
    {
      Pieces(list, pre, w, post);
      var index := BinarySearch(list[lo..hi], x);
      if index >= 0 {
        assert Elems([x]) == {x};
        return false, w;
      }
      index := -1 - index;
      InsertAt(w, index, x);
      SpliceWindow(list, pre, w, post, index, [x]);
      list := list[..lo + index] + [x] + list[lo + index..];
      return true, w[..index] + [x] + w[index..];
    }

    /**
     * The `do`-`while` loop of `addList` that steps past the run of elements
     * `w` and `l2` share from `w[index1] == l2[index2]` on.
     */
    static method CommonRun(w: seq<int>, l2: seq<int>, index1: nat, index2: nat)
      returns (index1b: nat, index2b: nat)
      requires index1 < |w| && index2 < |l2| && w[index1] == l2[index2]
      ensures index1b == index1 + RunLength(w, l2, index1, index2)
      ensures index2b == index2 + RunLength(w, l2, index1, index2)
    {
      index1b, index2b := index1 + 1, index2 + 1;
      while index1b < |w| && index2b < |l2| && w[index1b] == l2[index2b]
        invariant index1 < index1b <= |w| && index2 < index2b <= |l2|
        invariant index1b - index1 == index2b - index2
        invariant index1 + RunLength(w, l2, index1, index2) == index1b + RunLength(w, l2, index1b, index2b)
        decreases |w| - index1b
      {
        assert RunLength(w, l2, index1b, index2b) == 1 + RunLength(w, l2, index1b + 1, index2b + 1);
        index1b, index2b := index1b + 1, index2b + 1;
      }
    }

    /** The case of `addList` where the middle element of `list2` is in the window. */
    method AddListFound(lo: nat, hi: nat, list2: seq<int>, index1: nat, index2: nat,
                        ghost pre: seq<int>, ghost w: seq<int>, ghost post: seq<int>)
      returns (modified: bool, ghost merged: seq<int>)
      requires list == pre + w + post && lo == |pre| && hi == |pre| + |w|
      requires StrictlySorted(w) && StrictlySorted(list2)
      requires |list2| >= 2 && index2 == |list2| / 2
      requires index1 < |w| && w[index1] == list2[index2]
      modifies this
      ensures list == pre + merged + post
      ensures MergedInto(merged, w, list2)
      ensures modified <==> !(Elems(list2) <= Elems(w))
      decreases |list2|, 1
    {
      Pieces(list, pre, w, post);
      var index1b, index2b := CommonRun(list[lo..hi], list2, index1, index2);
      RunSlices(w, list2, index1, index2);
      FoundFlag(w, list2, index1, index1b, index2, index2b);
      if index1b == hi - lo {
        assert Elems(list2[index2b..]) <= Elems(w[index1b..]) <==> index2b == |list2| by {
          assert w[index1b..] == [];
          if index2b < |list2| {
            assert list2[index2b..][0] in Elems(list2[index2b..]);
          }
        }
        modified, merged := AddListFoundAtEnd(lo, hi, list2, index1, index2, index2b, pre, w, post);
      } else {
        modified, merged := AddListFoundInside(lo, hi, list2, index1, index1b, index2, index2b, pre, w, post);
      }
    }

    /**
     * `addList` after the common run reached the end of the window: the rest
     * of `list2` is appended, then the lower halves are merged.  The flag is
     * the one the evidently intended code returns: the appended elements
     * count as a change.
     */
    method AddListFoundAtEnd(lo: nat, hi: nat, list2: seq<int>, index1: nat, index2: nat, index2b: nat,
                             ghost pre: seq<int>, ghost w: seq<int>, ghost post: seq<int>)
      returns (modified: bool, ghost merged: seq<int>)
      requires list == pre + w + post && lo == |pre| && hi == |pre| + |w|
      requires StrictlySorted(w) && StrictlySorted(list2)
      requires index1 < |w| && index2 < index2b <= |list2| && w[index1..] == list2[index2..index2b]
      modifies this
      ensures list == pre + merged + post
      ensures MergedInto(merged, w, list2)
      ensures modified <==> (!(Elems(list2[..index2]) <= Elems(w[..index1])) || index2b < |list2|)
      decreases |list2|, 0
    {
      ghost var run, right := w[index1..], list2[index2b..];
      AppendWindow(list, pre, w, post, index1, right);
      list := list[..hi] + list2[index2b..] + list[hi..];
      SortedPrefix(w, index1);
      SortedPrefix(list2, index2);
      var m;
      ghost var left;
      m, left := AddList(lo, lo + index1, list2[..index2], pre, w[..index1], run + right + post);
      modified := m || index2b < |list2|;
      SortedSuffix(list2, index2b);
      assert w[|w|..] == [] && w[index1..|w|] == run;
      FoundStep(w, list2, index1, |w|, index2, index2b, left, right);
      merged := left + run + right;
      Regroup(pre, left, run, right, post);
    }

    /**
     * `addList` when the common run ends inside the window: the upper
     * halves are merged first, then the lower ones.
     */
    method AddListFoundInside(lo: nat, hi: nat, list2: seq<int>, index1: nat, index1b: nat,
                              index2: nat, index2b: nat,
                              ghost pre: seq<int>, ghost w: seq<int>, ghost post: seq<int>)
      returns (modified: bool, ghost merged: seq<int>)
      requires list == pre + w + post && lo == |pre| && hi == |pre| + |w|
      requires StrictlySorted(w) && StrictlySorted(list2)
      requires index1 < index1b < |w| && index2 < index2b <= |list2|
      requires w[index1..index1b] == list2[index2..index2b]
      modifies this
      ensures list == pre + merged + post
      ensures MergedInto(merged, w, list2)
      ensures modified <==>
        (!(Elems(list2[..index2]) <= Elems(w[..index1])) || !(Elems(list2[index2b..]) <= Elems(w[index1b..])))
      decreases |list2|, 0
    {
      ghost var run := w[index1..index1b];
      ShiftWindow(pre, w, index1b, post);
      SortedSuffix(w, index1b);
      SortedSuffix(list2, index2b);
      ghost var left, right;
      modified, right := AddList(lo + index1b, hi, list2[index2b..], pre + w[..index1b], w[index1b..], post);
      UnshiftWindow(pre, w, index1, index1b, right, post);
      SortedPrefix(w, index1);
      SortedPrefix(list2, index2);
      var m;
      m, left := AddList(lo, lo + index1, list2[..index2], pre, w[..index1], run + right + post);
      modified := modified || m;
      FoundStep(w, list2, index1, index1b, index2, index2b, left, right);
      merged := left + run + right;
      Regroup(pre, left, run, right, post);
    }

    /**
     * The case of `addList` where the middle element of `list2` is not in
     * the window and `index1` is its insertion point.
     */
    method AddListMissing(lo: nat, hi: nat, list2: seq<int>, index1: nat, index2: nat,
                          ghost pre: seq<int>, ghost w: seq<int>, ghost post: seq<int>)
      returns (modified: bool, ghost merged: seq<int>)
      requires list == pre + w + post && lo == |pre| && hi == |pre| + |w|
      requires StrictlySorted(w) && StrictlySorted(list2)
      requires |list2| >= 2 && index2 == |list2| / 2
      requires index1 <= |w| && Below(w[..index1], list2[index2]) && Above(w[index1..], list2[index2])
      modifies this
      ensures list == pre + merged + post
      ensures MergedInto(merged, w, list2)
      ensures modified
      decreases |list2|, 1
    {
      if index1 < hi - lo {
        merged := AddListBefore(lo, hi, list2, index1, index2, pre, w, post);
      } else {
        ghost var tail := list2[index2..];
        AppendWindow(list, pre, w, post, index1, tail);
        list := list[..hi] + list2[index2..] + list[hi..];
        SortedPrefix(list2, index2);
        var ignored;
        ghost var left;
        ignored, left := AddList(lo, lo + index1, list2[..index2], pre, w[..index1], w[index1..] + tail + post);
        assert w[..index1] == w && w[index1..] == [];
        AppendStep(w, list2, index2, left);
        merged := left + tail;
        Regroup(pre, left, [], tail, post);
      }
      modified := true;
    }

    /**
     * `addList` when the middle element of `list2` belongs before `w[index1]`:
     * the upper halves are merged, the run of `list2` below `w[index1]` is
     * inserted, then the lower halves are merged.
     */
    method AddListBefore(lo: nat, hi: nat, list2: seq<int>, index1: nat, index2: nat,
                         ghost pre: seq<int>, ghost w: seq<int>, ghost post: seq<int>)
      returns (ghost merged: seq<int>)
      requires list == pre + w + post && lo == |pre| && hi == |pre| + |w|
      requires StrictlySorted(w) && StrictlySorted(list2)
      requires |list2| >= 2 && index2 == |list2| / 2
      requires index1 < |w| && Below(w[..index1], list2[index2]) && Above(w[index1..], list2[index2])
      modifies this
      ensures list == pre + merged + post
      ensures MergedInto(merged, w, list2)
      decreases |list2|, 0
    {
      Pieces(list, pre, w, post);
      var index2b := index2 + 1;
      var obj := list[lo + index1];
      assert obj == w[index1];
      while index2b < |list2| && obj > list2[index2b]
        invariant index2 < index2b <= |list2| && list2[index2b - 1] < obj
        decreases |list2| - index2b
      {
        index2b := index2b + 1;
      }
      ShiftWindow(pre, w, index1, post);
      SortedSuffix(w, index1);
      SortedSuffix(list2, index2b);
      var ignored;
      ghost var left, right;
      ignored, right := AddList(lo + index1, hi, list2[index2b..], pre + w[..index1], w[index1..], post);
      var run := list2[index2..index2b];
      InsertAfterWindow(list, pre, w[..index1], right, post, run);
      if index2b > 1 + index2 {
        list := list[..lo + index1] + run + list[lo + index1..];
      } else {
        SingletonSlice(list2, index2, index2b);
        list := list[..lo + index1] + [list2[index2]] + list[lo + index1..];
      }
      SortedPrefix(w, index1);
      SortedPrefix(list2, index2);
      ignored, left := AddList(lo, lo + index1, list2[..index2], pre, w[..index1], run + right + post);
      GapStep(w, list2, index1, index2, index2b, left, right);
      merged := left + run + right;
      Regroup(pre, left, run, right, post);
    }
  }
}
