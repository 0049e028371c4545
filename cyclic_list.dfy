/**
 * `CyclicArrayList`: a list addressed modulo its length.  Every position
 * argument, negative ones included, is first reduced by `shiftIndex`, so
 * `get(i)` and `get(i + size())` denote the same slot, and an empty list
 * answers every positional access with `EmptyCyclicListException`.
 *
 * The meaning of each operation is given by a function on sequences; the
 * class below changes its `list` field as those functions prescribe.
 */
module CyclicLists {
  import opened JavaLang

  // ---------------------------------------------------------------------
  // Index arithmetic and positional access
  // ---------------------------------------------------------------------

  /**
   * `shiftIndex(index, size)`: the representative of `index` modulo `size`
   * in `[0, size)`, computed with Java's truncating remainder.
   */
  function ShiftIndexBy(index: int, size: nat): (r: Result<int>)
    ensures size == 0 ==> r == Throw(EmptyCyclicList)
    ensures size > 0 ==> r.Ok? && 0 <= r.value < size && r.value == index % size
  {
    if size == 0 then Throw(EmptyCyclicList)
    else if index >= 0 then Ok(JavaRem(index, size))
    else
      var t := JavaRem(index, size);
      ModAddMultiple(t, JavaDiv(index, size), size);
      ModAddMultiple(t, 1, size);
      Ok(JavaRem(t + size, size))
  }

  /** `get(index)` on a list with contents `s`. */
  function At<E>(s: seq<E>, index: int): (r: Result<E>)
    ensures |s| == 0 ==> r == Throw(EmptyCyclicList)
    ensures |s| > 0 ==> r == Ok(s[index % |s|])
  {
    match ShiftIndexBy(index, |s|)
    case Throw(e) => Throw(e)
    case Ok(k) => Ok(s[k])
  }

  /** `get` is periodic with period `size()`, in both directions. */
  lemma AtPeriodic<E>(s: seq<E>, index: int, k: int)
    ensures At(s, index + k * |s|) == At(s, index)
  {
    if |s| > 0 {
      ModAddMultiple(index, k, |s|);
    }
  }

  /**
   * `set(index, e)` replaces exactly the slot `shiftIndex(index)`: reading
   * that index afterwards yields `e`, and every index in another residue
   * class reads as before.
   */
  lemma AtAfterUpdate<E>(s: seq<E>, index: int, e: E, other: int)
    requires |s| > 0
    ensures At(s[index % |s| := e], index) == Ok(e)
    ensures other % |s| != index % |s| ==>
      At(s[index % |s| := e], other) == At(s, other)
  {
  }

  /**
   * `add(index, e)`: `e` is inserted at `shiftIndex(index, size() + 1)`, the
   * slot it occupies in the longer list.
   */
  function Inserted<E>(s: seq<E>, index: int, e: E): (r: seq<E>)
    ensures |r| == |s| + 1
    ensures At(r, index) == Ok(e)
    ensures r[..index % |r|] + r[index % |r| + 1..] == s
  {
    var k := ShiftIndexBy(index, |s| + 1).value;
    var r := s[..k] + [e] + s[k..];
    assert r[..k] + r[k + 1..] == s;
    r
  }

  /** Adding at index `size()` appends: `add(E)` puts the element last. */
  lemma InsertedAtEnd<E>(s: seq<E>, e: E)
    ensures Inserted(s, |s|, e) == s + [e]
  {
    DivModUnique(|s|, |s| + 1, 0, |s|);
  }

  /** Adding at index 0 prepends: how `getInverse` builds its result. */
  lemma InsertedAtFront<E>(s: seq<E>, e: E)
    ensures Inserted(s, 0, e) == [e] + s
  {
    DivModUnique(0, |s| + 1, 0, 0);
  }

  /**
   * `addAll(index, l)`: the elements of `l` are placed so that `get(index + k)`
   * yields `l[k]`.  When the inserted block would run past the end of the
   * longer list it wraps around, and the old elements end up in one piece.
   */
  function InsertedAll<E>(s: seq<E>, index: int, l: seq<E>): (r: seq<E>)
    ensures |r| == |s| + |l|
  {
    if |l| == 0 then s
    else
      var newSize := |s| + |l|;
      var p := ShiftIndexBy(index, newSize).value;
      if p + |l| <= newSize then s[..p] + l + s[p..]
      else
        DivModUnique(p + |l|, newSize, 1, p + |l| - newSize);
        var ind1 := JavaRem(p + |l|, newSize);
        var addLen1 := |l| - ind1;
        l[addLen1..addLen1 + ind1] + s + l[..addLen1]
  }

  /**
   * The two shapes of `addAll(index, l)`, in terms of the slot `p` the block
   * starts at: in one piece, or wrapped around with its tail in front.
   */
  lemma {:induction false} InsertedAllShape<E>(s: seq<E>, index: int, l: seq<E>, p: nat)
    requires |l| > 0 && p == index % (|s| + |l|)
    ensures p + |l| <= |s| + |l| ==> InsertedAll(s, index, l) == s[..p] + l + s[p..]
    ensures p + |l| > |s| + |l| ==> InsertedAll(s, index, l) == l[|s| + |l| - p..] + s + l[..|s| + |l| - p]
  {
    if p + |l| > |s| + |l| {
      DivModUnique(p + |l|, |s| + |l|, 1, p + |l| - (|s| + |l|));
    }
  }

  /** The documented contract of `addAll(index, l)`: `get(index + k) == l[k]`. */
  lemma {:induction false} InsertedAllAt<E>(s: seq<E>, index: int, l: seq<E>, k: int)
    requires 0 <= k < |l|
    ensures At(InsertedAll(s, index, l), index + k) == Ok(l[k])
  {
    var n := |s| + |l|;
    var p := index % n;
    var r := InsertedAll(s, index, l);
    InsertedAllShape(s, index, l, p);
    DivModUnique(p, n, 0, p);
    ModStep(index, k, n);
    if p + |l| <= n {
      assert r[p + k] == l[k];
    } else if p + k < n {
      assert r[p + k] == l[..n - p][k];
    } else {
      assert r[p + k - n] == l[n - p..][p + k - n];
    }
  }

  /**
   * `addAll(index, l)` keeps the old elements in cyclic order: read from the
   * slot just after the inserted block, the list starts with a rotation of
   * the old contents.
   */
  lemma {:induction false} InsertedAllKeepsOld<E>(s: seq<E>, index: int, l: seq<E>)
    requires |l| > 0
    ensures RotationEqual(Rotated(InsertedAll(s, index, l), (index + |l|) % (|s| + |l|))[..|s|], s)
  {
    var n := |s| + |l|;
    var p := index % n;
    InsertedAllShape(s, index, l, p);
    DivModUnique(p, n, 0, p);
    ModStep(index, |l|, n);
    KeepsOld(s, l, p, InsertedAll(s, index, l), (index + |l|) % n);
  }

  /**
   * In either copying case of `addAll`, `|s|` elements read from `m`, just
   * after the inserted run, are the old list `s` up to rotation.
   */
  lemma {:induction false} KeepsOld<E>(s: seq<E>, l: seq<E>, p: nat, r: seq<E>, m: nat)
    requires p <= |s| + |l| && m <= |r|
    requires p + |l| <= |s| + |l| ==> r == s[..p] + l + s[p..]
    requires p + |l| < |s| + |l| ==> m == p + |l|
    requires p + |l| >= |s| + |l| ==> m == p + |l| - (|s| + |l|)
    requires p + |l| > |s| + |l| ==> r == l[|s| + |l| - p..] + s + l[..|s| + |l| - p]
    ensures RotationEqual(Rotated(r, m)[..|s|], s)
  {
    if p + |l| < |s| + |l| {
      assert r[m..] == s[p..];
      assert r[..m][..p] == s[..p];
      assert Rotated(r, m)[..|s|] == Rotated(s, p);
      RotationOfRotated(s, p);
    } else {
      assert Rotated(r, m)[..|s|] == s;
      RotationOfRotated(s, 0);
    }
  }

  // ---------------------------------------------------------------------
  // Rotation and equality up to rotation
  // ---------------------------------------------------------------------

  /** The list read from position `k` on, wrapping around at the end. */
  function Rotated<E>(s: seq<E>, k: nat): (r: seq<E>)
    requires k <= |s|
    ensures |r| == |s|
  {
    assert s == s[..k] + s[k..];
    s[k..] + s[..k]
  }

  /** Slot `j` of the rotation by `k` holds the element at `j + k` modulo the size. */
  lemma RotatedAt<E>(s: seq<E>, k: nat, j: int)
    requires k < |s| && 0 <= j < |s|
    ensures Rotated(s, k)[j] == s[(j + k) % |s|]
  {
    if j + k < |s| {
      DivModUnique(j + k, |s|, 0, j + k);
    } else {
      DivModUnique(j + k, |s|, 1, j + k - |s|);
    }
  }

  /**
   * Equality of cyclic lists: same size and, for some starting point in the
   * first, the same elements in the same order.
   */
  ghost predicate RotationEqual<E>(s: seq<E>, t: seq<E>)
  {
    |s| == |t| && (|s| == 0 || exists k :: 0 <= k < |s| && Rotated(s, k) == t)
  }

  /** No start before `i` makes `s` read as `t`. */
  ghost predicate NoRotationBelow<E>(s: seq<E>, t: seq<E>, i: nat)
    requires i <= |s|
  {
    forall k :: 0 <= k < i ==> Rotated(s, k) != t
  }

  /** Rotating and rotating back gives the original list. */
  lemma RotationOfRotated<E>(s: seq<E>, k: nat)
    requires k <= |s|
    ensures RotationEqual(Rotated(s, k), s)
    ensures RotationEqual(s, Rotated(s, k))
  {
    if |s| > 0 {
      if k == |s| {
        assert Rotated(s, k) == s;
        assert Rotated(s, 0) == s;
      } else if k == 0 {
        assert Rotated(s, 0) == s;
      } else {
        var r := Rotated(s, k);
        assert Rotated(r, |s| - k) == s;
      }
    }
  }

  /** `cycle(index)` on a list with contents `s`. */
  function Cycled<E>(s: seq<E>, index: int): (r: seq<E>)
    ensures |r| == |s|
  {
    if |s| == 0 then s else Rotated(s, index % |s|)
  }

  /**
   * The documented contract of `cycle(index)`: `p.get(i) == get(i + index)`
   * for every `i`.
   */
  lemma CycleAt<E>(s: seq<E>, index: int, i: int)
    ensures At(Cycled(s, index), i) == At(s, i + index)
  {
    var n := |s|;
    if n > 0 {
      var k := index % n;
      var j := i % n;
      var r := Rotated(s, k);
      RotatedAt(s, k, j);
      assert At(r, i) == Ok(r[j]);
      ModAdd(i, index, n);
      assert (j + k) % n == (i + index) % n;
    }
  }

  /** `cycle(index)` equals the original list up to rotation, both ways round. */
  lemma CycleRotationEqual<E>(s: seq<E>, index: int)
    ensures RotationEqual(Cycled(s, index), s) && RotationEqual(s, Cycled(s, index))
  {
    if |s| > 0 {
      RotationOfRotated(s, index % |s|);
    }
  }

  /** Equality up to rotation is an equivalence: it is symmetric. */
  lemma RotationEqualSymmetric<E>(s: seq<E>, t: seq<E>)
    requires RotationEqual(s, t)
    ensures RotationEqual(t, s)
  {
    if |s| > 0 {
      var k :| 0 <= k < |s| && Rotated(s, k) == t;
      RotationOfRotated(s, k);
    }
  }

  // ---------------------------------------------------------------------
  // Reversal
  // ---------------------------------------------------------------------

  /** The list in reverse order, `getInverse()`. */
  function Inverse<E>(s: seq<E>): (r: seq<E>)
    ensures |r| == |s|
  {
    seq(|s|, i requires 0 <= i < |s| => s[|s| - 1 - i])
  }

  /** Reading the inverse at `i` reads the original at `-1 - i`. */
  lemma InverseAt<E>(s: seq<E>, i: int)
    ensures At(Inverse(s), i) == At(s, -1 - i)
  {
    var n := |s|;
    if n > 0 {
      var j := i % n;
      assert -1 - i == (-(i / n) - 1) * n + (n - 1 - j);
      DivModUnique(-1 - i, n, -(i / n) - 1, n - 1 - j);
    }
  }

  /** The inverse of the inverse is the original list. */
  lemma InverseInvolutive<E>(s: seq<E>)
    ensures Inverse(Inverse(s)) == s
  {
  }

  /** Prepending the next element extends the inverse of a prefix. */
  lemma InversePrefix<E>(s: seq<E>, i: nat)
    requires i < |s|
    ensures Inverse(s[..i + 1]) == [s[i]] + Inverse(s[..i])
  {
  }

  // ---------------------------------------------------------------------
  // Membership
  // ---------------------------------------------------------------------

  /**
   * What `containsAll(coll)` returns as written: whether SOME element of
   * `coll` occurs in `s`.
   */
  ghost predicate ContainsSome<E>(s: seq<E>, coll: seq<E>)
  {
    exists c :: c in coll && c in s
  }

  /** What `containsAll(coll)` is documented to return: EVERY element occurs. */
  ghost predicate ContainsEvery<E>(s: seq<E>, coll: seq<E>)
  {
    forall c :: c in coll ==> c in s
  }

  /**
   * `containsAll` as written differs from the collection contract: it
   * accepts `[0, 1]` against a list holding only `0`, and rejects the empty
   * collection, which every list contains.
   */
  lemma ContainsAllCounterexample()
    ensures ContainsSome([0], [0, 1]) && !ContainsEvery([0], [0, 1])
    ensures !ContainsSome([0], []) && ContainsEvery([0], [])
  {
    assert 0 in [0] && 0 in [0, 1];
    assert 1 in [0, 1] && 1 !in [0];
  }

  // ---------------------------------------------------------------------
  // The mutable list
  // ---------------------------------------------------------------------

  class CyclicArrayList<E(==)> {
    /** The elements, in the order `get(0), get(1), …`. */
    var list: seq<E>

    constructor ()
      ensures list == []
    {
      list := [];
    }

    constructor FromSeq(s: seq<E>)
      ensures list == s
    {
      list := s;
    }

    /** `size()`: 0 exactly when `get` has nothing to return. */
    function Size(): (n: nat)
      reads this
      ensures n == 0 <==> list == []
      ensures forall index :: Get(index).Ok? <==> n > 0
    {
      |list|
    }

    /** `shiftIndex(index)`: the slot `index` stands for, modulo `size()`. */
    function ShiftIndex(index: int): (r: Result<int>)
      reads this
      ensures list == [] ==> r == Throw(EmptyCyclicList)
      ensures list != [] ==> r.Ok? && 0 <= r.value < |list| && r.value == index % |list|
    {
      ShiftIndexBy(index, |list|)
    }

    /** `get(index)`: the element at `index` modulo `size()`. */
    function Get(index: int): (r: Result<E>)
      reads this
      ensures list == [] ==> r == Throw(EmptyCyclicList)
      ensures list != [] ==> r == Ok(list[index % |list|])
    {
      At(list, index)
    }

    /** `set(index, e)`: returns the element it replaces. */
    method Set(index: int, element: E) returns (r: Result<E>)
      modifies this
      ensures old(list) == [] ==> r == Throw(EmptyCyclicList) && list == old(list)
      ensures old(list) != [] ==>
        var k := index % |old(list)|;
        r == Ok(old(list)[k]) && list == old(list)[k := element]
    {
      var k :- ShiftIndex(index);
      r := Ok(list[k]);
      list := list[k := element];
    }

    /** `add(index, e)`: allowed on an empty list. */
    method AddAt(index: int, element: E)
      modifies this
      ensures list == Inserted(old(list), index, element)
    {
      var oldList := list;
      var k := ShiftIndexBy(index, |oldList| + 1).value;
      list := oldList[..k] + [element] + oldList[k..];
    }

    /** `add(e)`: inserts at index `size()`, which is the end, and returns true. */
    method Add(element: E) returns (r: bool)
      modifies this
      ensures r && list == old(list) + [element]
    {
      InsertedAtEnd(list, element);
      AddAt(|list|, element);
      r := true;
    }

    /** `addAll(index, l)`. */
    method AddAll(index: int, addList: seq<E>)
      modifies this
      ensures list == InsertedAll(old(list), index, addList)
    {
      if |addList| == 0 {
        return;
      }
      var oldList := list;
      var newSize := |oldList| + |addList|;
      var p := ShiftIndexBy(index, newSize).value;
      if p + |addList| <= newSize {
        list := oldList[..p] + addList + oldList[p..newSize - |addList|];
      } else {
        DivModUnique(p + |addList|, newSize, 1, p + |addList| - newSize);
        var ind1 := JavaRem(p + |addList|, newSize);
        var addLen1 := |addList| - ind1;
        list := addList[addLen1..addLen1 + ind1] + oldList + addList[..addLen1];
      }
    }

    /** `remove(index)`: returns the element removed. */
    method Remove(index: int) returns (r: Result<E>)
      modifies this
      ensures old(list) == [] ==> r == Throw(EmptyCyclicList) && list == old(list)
      ensures old(list) != [] ==>
        var k := index % |old(list)|;
        r == Ok(old(list)[k]) && list == old(list)[..k] + old(list)[k + 1..]
    {
      var k :- ShiftIndex(index);
      r := Ok(list[k]);
      list := list[..k] + list[k + 1..];
    }

    method Clear()
      modifies this
      ensures list == []
    {
      list := [];
    }

    /** `cycle(index)`: a new list starting at `get(index)`. */
    method Cycle(index: int) returns (p: CyclicArrayList<E>)
      ensures fresh(p)
      ensures p.list == Cycled(list, index)
    {
      var n := |list|;
      if n == 0 {
        p := new CyclicArrayList.FromSeq(list);
        return;
      }
      var i := index;
      while i < 0
        invariant i % n == index % n
        decreases -i
      {
        ModAddMultiple(i, 1, n);
        i := i + n;
      }
      while i >= n
        invariant i >= 0 && i % n == index % n
      {
        ModAddMultiple(i - n, 1, n);
        i := i - n;
      }
      DivModUnique(i, n, 0, i);
      p := new CyclicArrayList.FromSeq(list[i..] + list[..i]);
    }

    /**
     * `getCopy(len)`: the list repeated until it has `len` elements, the last
     * copy cut short.
     */
    method GetCopy(len: int) returns (r: Result<CyclicArrayList<E>>)
      ensures len < 0 ==> r == Throw(IllegalArgument)
      ensures len >= 0 && list == [] && len != 0 ==> r == Throw(EmptyCyclicList)
      ensures len >= 0 && (list != [] || len == 0) ==> r.Ok?
      ensures r.Ok? ==> fresh(r.value) && |r.value.list| == len
      ensures r.Ok? ==> forall i :: 0 <= i < len ==> At(list, i) == Ok(r.value.list[i])
    {
      if len < 0 {
        return Throw(IllegalArgument);
      }
      if |list| == 0 {
        if len == 0 {
          var c := new CyclicArrayList();
          return Ok(c);
        }
        return Throw(EmptyCyclicList);
      }
      var n := |list|;
      var newList: seq<E> := [];
      for i := 0 to len / n
        invariant newList == Repeat(list, i)
      {
        newList := newList + list;
      }
      RepeatCut(list, len);
      newList := newList + list[..len % n];
      var c := new CyclicArrayList.FromSeq(newList);
      r := Ok(c);
    }

    /** `getInverse()`: built by adding each element at index 0 of a new list. */
    method GetInverse() returns (result: CyclicArrayList<E>)
      ensures fresh(result)
      ensures result.list == Inverse(list)
    {
      result := new CyclicArrayList();
      for i := 0 to |list|
        invariant fresh(result)
        invariant result.list == Inverse(list[..i])
      {
        var x := Get(i).value;
        assert x == list[i] by {
          DivModUnique(i, |list|, 0, i);
        }
        InsertedAtFront(result.list, x);
        InversePrefix(list, i);
        result.AddAt(0, x);
      }
      assert list[..|list|] == list;
    }

    /** `contains(obj)`. */
    method Contains(obj: E) returns (b: bool)
      ensures b <==> obj in list
    {
      var n := |list|;
      for i := 0 to n
        invariant obj !in list[..i]
      {
        DivModUnique(i, n, 0, i);
        if obj == Get(i).value {
          return true;
        }
      }
      assert list[..n] == list;
      return false;
    }

    /**
     * `containsAll(coll)` as written: stops at the first element of `coll`
     * that is contained and returns true.
     */
    method ContainsAll(coll: seq<E>) returns (b: bool)
      ensures b <==> ContainsSome(list, coll)
    {
      for j := 0 to |coll|
        invariant forall c :: c in coll[..j] ==> c !in list
      {
        var found := Contains(coll[j]);
        if found {
          return true;
        }
      }
      assert coll[..|coll|] == coll;
      return false;
    }

    /** `containsAll(coll)` as the collection contract intends it. */
    method ContainsEveryElement(coll: seq<E>) returns (b: bool)
      ensures b <==> ContainsEvery(list, coll)
    {
      for j := 0 to |coll|
        invariant forall c :: c in coll[..j] ==> c in list
      {
        var found := Contains(coll[j]);
        if !found {
          return false;
        }
      }
      assert coll[..|coll|] == coll;
      return true;
    }

    /** `getIndexOf(obj)`: the first index holding `obj`, or -1. */
    method GetIndexOf(obj: E) returns (r: int)
      ensures r == -1 <==> obj !in list
      ensures r != -1 ==> 0 <= r < |list| && list[r] == obj && obj !in list[..r]
    {
      for i := 0 to |list|
        invariant obj !in list[..i]
      {
        if list[i] == obj {
          return i;
        }
      }
      assert list[..|list|] == list;
      return -1;
    }

    /**
     * `equals(obj)`, where `isCyclicList` tells whether `obj` is a
     * `CyclicList` and `other` is that list: for each start `i` in this list,
     * an iterator from `i` and an iterator of `other` from 0 are compared by
     * `retEquals`.
     */
    method Equals(isCyclicList: bool, other: CyclicArrayList<E>) returns (b: bool)
      ensures b <==> isCyclicList && RotationEqual(list, other.list)
    {
      if !isCyclicList {
        return false;
      }
      var n := |list|;
      if n != |other.list| {
        return false;
      }
      if n == 0 {
        return true;
      }
      for i := 0 to n
        invariant NoRotationBelow(list, other.list, i)
      {
        var same := RotationMatches(other, i);
        if same {
          return true;
        }
      }
      return false;
    }

    /**
     * One round of `equals`: an iterator of this list from `i` and one of
     * `other` from 0 return the same elements exactly when the rotation of
     * this list by `i` is `other`.
     */
    method RotationMatches(other: CyclicArrayList<E>, i: nat) returns (same: bool)
      requires i < |list| == |other.list|
      ensures same <==> Rotated(list, i) == other.list
    {
      var n := |list|;
      var thisIt := new CyclicArrayIterator(this, i);
      var otherIt := new CyclicArrayIterator(other, 0);
      assert thisIt.Remaining() == Rotated(list, i) && otherIt.Remaining() == other.list by {
        DivModUnique(i, n, 0, i);
        DivModUnique(0, n, 0, 0);
        assert Rotated(other.list, 0) == other.list;
      }
      var r := thisIt.RetEquals(otherIt);
      same := r.value;
    }
  }

  // ---------------------------------------------------------------------
  // The iterator
  // ---------------------------------------------------------------------

  /** Which of the iterator's operations was called last. */
  datatype LastCall = CalledNothing | CalledPrevious | CalledNext | CalledAdd | CalledRemove

  /** `q` copies of `s` followed by the first `k` elements of one more: slot `m` holds `s[m % |s|]`. */
  lemma AppendRepeated<E>(acc: seq<E>, s: seq<E>, q: nat, k: nat)
    requires 0 < |s| && k <= |s| && |acc| == q * |s|
    requires forall m :: 0 <= m < |acc| ==> acc[m] == s[m % |s|]
    ensures |acc + s[..k]| == q * |s| + k
    ensures k == |s| ==> |acc + s[..k]| == (q + 1) * |s|
    ensures forall m :: 0 <= m < |acc| + k ==> (acc + s[..k])[m] == s[m % |s|]
  {
    forall m | |acc| <= m < |acc| + k
      ensures (acc + s[..k])[m] == s[m % |s|]
    {
      DivModUnique(m, |s|, q, m - q * |s|);
    }
  }

  /** `q` copies of `s`, one after the other. */
  function Repeat<E>(s: seq<E>, q: nat): seq<E>
  {
    if q == 0 then [] else Repeat(s, q - 1) + s
  }

  /** Slot `m` of `q` copies of `s` holds `s[m % |s|]`. */
  lemma {:induction false} RepeatAt<E>(s: seq<E>, q: nat)
    requires 0 < |s|
    ensures |Repeat(s, q)| == q * |s|
    ensures forall m :: 0 <= m < |Repeat(s, q)| ==> Repeat(s, q)[m] == s[m % |s|]
  {
    if q > 0 {
      RepeatAt(s, q - 1);
      AppendRepeated(Repeat(s, q - 1), s, q - 1, |s|);
      assert s[..|s|] == s;
    }
  }

  /** `len / |s|` copies of `s` and the first `len % |s|` elements of one more: `len` elements, `s` over and over. */
  lemma RepeatCut<E>(s: seq<E>, len: nat)
    requires 0 < |s|
    ensures |Repeat(s, len / |s|) + s[..len % |s|]| == len
    ensures forall m :: 0 <= m < len ==> (Repeat(s, len / |s|) + s[..len % |s|])[m] == s[m % |s|]
  {
    RepeatAt(s, len / |s|);
    AppendRepeated(Repeat(s, len / |s|), s, len / |s|, len % |s|);
  }

  /** `s` with the slot `shiftIndex(index)` taken out. */
  function RemovedAt<E>(s: seq<E>, index: int): (r: seq<E>)
    requires |s| > 0
    ensures |r| == |s| - 1
    ensures forall e :: e in r ==> e in s
  {
    var k := index % |s|;
    s[..k] + s[k + 1..]
  }

  /** The `count` elements read from `from` on, wrapping around. */
  function Window<E>(l: seq<E>, from: int, count: nat): (r: seq<E>)
    requires |l| > 0
    ensures |r| == count
    decreases count
  {
    if count == 0 then [] else [l[from % |l|]] + Window(l, from + 1, count - 1)
  }

  /** Slot `m` of a window is read from `from + m`, wrapping around. */
  lemma {:induction false} WindowAt<E>(l: seq<E>, from: int, count: nat, m: nat)
    requires |l| > 0 && m < count
    ensures Window(l, from, count)[m] == l[(from + m) % |l|]
    decreases count
  {
    if m > 0 {
      WindowAt(l, from + 1, count - 1, m - 1);
      assert from + 1 + (m - 1) == from + m;
    }
  }

  /** A full window from a reduced start is the rotation there. */
  lemma WindowRotated<E>(l: seq<E>, k: nat)
    requires k < |l|
    ensures Window(l, k, |l|) == Rotated(l, k)
  {
    forall m | 0 <= m < |l|
      ensures Window(l, k, |l|)[m] == Rotated(l, k)[m]
    {
      WindowAt(l, k, |l|, m);
      RotatedAt(l, k, m);
    }
  }

  /** Equal elements at `2k` and `2k + 1`, for every full pair of `rem`. */
  ghost predicate PairedUp<E>(rem: seq<E>)
  {
    forall k | 0 <= k < |rem| / 2 :: rem[2 * k] == rem[2 * k + 1]
  }

  /** `PairedUp` looks at the first pair and at the rest. */
  lemma PairedUpStep<E>(rem: seq<E>)
    requires |rem| >= 2
    ensures PairedUp(rem) <==> rem[0] == rem[1] && PairedUp(rem[2..])
    ensures |rem| % 2 == |rem[2..]| % 2
  {
    var t := rem[2..];
    assert |t| / 2 == |rem| / 2 - 1;
    if PairedUp(rem) {
      assert rem[2 * 0] == rem[2 * 0 + 1];
      forall k | 0 <= k < |t| / 2
        ensures t[2 * k] == t[2 * k + 1]
      {
        assert t[2 * k] == rem[2 * (k + 1)] && t[2 * k + 1] == rem[2 * (k + 1) + 1];
      }
    }
    if rem[0] == rem[1] && PairedUp(t) {
      forall k | 0 <= k < |rem| / 2
        ensures rem[2 * k] == rem[2 * k + 1]
      {
        if k > 0 {
          assert t[2 * (k - 1)] == rem[2 * k] && t[2 * (k - 1) + 1] == rem[2 * k + 1];
        }
      }
    }
  }

  /**
   * `retEquals` of an iterator with itself, given the elements it has left:
   * each round calls `next()` twice, so it compares them in pairs; an odd
   * element left over makes the second call throw `NoSuchElementException`.
   */
  function SelfRetEquals<E(==)>(rem: seq<E>): (r: Result<bool>)
    ensures r == Ok(true) <==> |rem| % 2 == 0 && PairedUp(rem)
    ensures r == Throw(NoSuchElement) <==> |rem| % 2 == 1 && PairedUp(rem)
    ensures r.Throw? ==> r == Throw(NoSuchElement)
    decreases |rem|
  {
    if |rem| == 0 then Ok(true)
    else if |rem| == 1 then Throw(NoSuchElement)
    else
      PairedUpStep(rem);
      if rem[0] != rem[1] then Ok(false)
      else SelfRetEquals(rem[2..])
  }

  /**
   * `CyclicArrayIterator`: a cursor into a cyclic list.  `next()` may be
   * called while `index < startIndex + size()`, so a fresh iterator visits
   * every element once, starting at its initial index; `previous()` may be
   * called while `index > startIndex`.  Indices grow without being reduced;
   * the list reduces them on access.
   */
  class CyclicArrayIterator<E(==)> {
    const cal: CyclicArrayList<E>
    var index: int
    var startIndex: int
    var calledLast: LastCall

    /** On an empty list both indices are -1; otherwise `index` is reduced. */
    constructor (cal: CyclicArrayList<E>, index: int)
      ensures this.cal == cal
      ensures this.index == if cal.list == [] then -1 else index % |cal.list|
      ensures startIndex == this.index && calledLast == CalledNothing
      ensures cal.list != [] ==> Remaining() == Rotated(cal.list, this.index)
    {
      this.cal := cal;
      var i := if cal.list == [] then -1 else cal.ShiftIndex(index).value;
      this.index := i;
      startIndex := i;
      calledLast := CalledNothing;
      new;
      if cal.list != [] {
        WindowRotated(cal.list, i);
      }
    }

    /** The elements successive calls of `next()` return, in order. */
    function Remaining(): (r: seq<E>)
      reads this, cal
      ensures cal.list == [] ==> r == []
      ensures cal.list != [] ==>
        |r| == if startIndex + |cal.list| - index <= 0 then 0 else startIndex + |cal.list| - index
      ensures forall m | 0 <= m < |r| :: r[m] == cal.list[(index + m) % |cal.list|]
    {
      var l := cal.list;
      var count := startIndex + |l| - index;
      if l == [] || count <= 0 then []
      else
        assert forall m | 0 <= m < count :: Window(l, index, count)[m] == l[(index + m) % |l|] by {
          forall m | 0 <= m < count {
            WindowAt(l, index, count, m);
          }
        }
        Window(l, index, count)
    }

    /** `hasNext()`: whether `next()` has an element left to return. */
    predicate HasNext()
      reads this, cal
      ensures cal.list != [] ==> (HasNext() <==> Remaining() != [])
    {
      index < startIndex + |cal.list|
    }

    /** `hasPrevious()`: whether `next()` has been called more often than `previous()`. */
    predicate HasPrev()
      reads this, cal
      ensures cal.list != [] ==> (HasPrev() <==> |Remaining()| < |cal.list|)
    {
      index > startIndex
    }

    /** `next()`: the element at `index`; the cursor moves on by one. */
    method Next() returns (r: Result<E>)
      modifies this
      ensures startIndex == old(startIndex)
      ensures !old(HasNext()) ==>
        r == Throw(NoSuchElement) && index == old(index) && calledLast == old(calledLast)
      ensures old(HasNext()) ==>
        r == At(cal.list, old(index)) && index == old(index) + 1 && calledLast == CalledNext
      ensures old(HasNext()) && cal.list != [] ==>
        r == Ok(old(Remaining())[0]) && Remaining() == old(Remaining())[1..]
    {
      if !HasNext() {
        return Throw(NoSuchElement);
      }
      calledLast := CalledNext;
      index := index + 1;
      r := cal.Get(index - 1);
    }

    /** `previous()`: the cursor moves back by one and yields that element. */
    method Previous() returns (r: Result<E>)
      modifies this
      ensures startIndex == old(startIndex)
      ensures !old(HasPrev()) ==>
        r == Throw(NoSuchElement) && index == old(index) && calledLast == old(calledLast)
      ensures old(HasPrev()) ==>
        r == At(cal.list, old(index) - 1) && index == old(index) - 1 && calledLast == CalledPrevious
    {
      if !HasPrev() {
        return Throw(NoSuchElement);
      }
      calledLast := CalledPrevious;
      index := index - 1;
      r := cal.Get(index);
    }

    /**
     * `set(obj)`: replaces the element `next()` or `previous()` returned last;
     * after any other call it throws `IllegalStateException`.
     */
    method Set(obj: E) returns (r: Result<()>)
      modifies cal
      ensures calledLast !in {CalledNext, CalledPrevious} ==>
        r == Throw(IllegalState) && cal.list == old(cal.list)
      ensures calledLast in {CalledNext, CalledPrevious} && old(cal.list) == [] ==>
        r == Throw(EmptyCyclicList) && cal.list == old(cal.list)
      ensures calledLast in {CalledNext, CalledPrevious} && old(cal.list) != [] ==>
        var k := if calledLast == CalledNext then index - 1 else index;
        r == Ok(()) && cal.list == old(cal.list)[k % |old(cal.list)| := obj]
    {
      match calledLast
      case CalledAdd => r := Throw(IllegalState);
      case CalledRemove => r := Throw(IllegalState);
      case CalledNothing => r := Throw(IllegalState);
      case CalledNext =>
        var old_ :- cal.Set(index - 1, obj);
        r := Ok(());
      case CalledPrevious =>
        var old_ :- cal.Set(index, obj);
        r := Ok(());
    }

    /**
     * `remove()` as written: removes the element `next()` or `previous()`
     * returned last.  After `next()` the cursor moves back and `startIndex`
     * is adjusted by a remainder modulo the new size, which is zero once the
     * last element is gone.
     */
    method Remove() returns (r: Result<()>)
      modifies this, cal
      ensures old(calledLast) !in {CalledNext, CalledPrevious} ==>
        r == Throw(IllegalState) && cal.list == old(cal.list) &&
        index == old(index) && startIndex == old(startIndex) && calledLast == old(calledLast)
      ensures old(calledLast) == CalledPrevious ==>
        index == old(index) && startIndex == old(startIndex)
      ensures old(calledLast) == CalledPrevious && old(cal.list) == [] ==>
        r == Throw(EmptyCyclicList) && cal.list == old(cal.list) && calledLast == CalledPrevious
      ensures old(calledLast) == CalledPrevious && old(cal.list) != [] ==>
        r == Ok(()) && cal.list == RemovedAt(old(cal.list), old(index)) && calledLast == CalledRemove
      ensures old(calledLast) == CalledNext ==> index == old(index) - 1
      ensures old(calledLast) == CalledNext && old(cal.list) == [] ==>
        r == Throw(EmptyCyclicList) && cal.list == old(cal.list) &&
        startIndex == old(startIndex) && calledLast == CalledNext
      ensures old(calledLast) == CalledNext && |old(cal.list)| == 1 ==>
        r == Throw(Arithmetic) && cal.list == [] &&
        startIndex == old(startIndex) && calledLast == CalledNext
      ensures old(calledLast) == CalledNext && |old(cal.list)| > 1 ==>
        r == Ok(()) && cal.list == RemovedAt(old(cal.list), old(index) - 1) &&
        calledLast == CalledRemove &&
        startIndex == if index <= JavaRem(old(startIndex), |cal.list|)
                      then old(startIndex) - 1 else old(startIndex)
    {
      match calledLast
      case CalledRemove => r := Throw(IllegalState);
      case CalledAdd => r := Throw(IllegalState);
      case CalledNothing => r := Throw(IllegalState);
      case CalledNext =>
        index := index - 1;
        var removed :- cal.Remove(index);
        if |cal.list| == 0 {
          return Throw(Arithmetic);
        }
        if index <= JavaRem(startIndex, |cal.list|) {
          startIndex := startIndex - 1;
        }
        calledLast := CalledRemove;
        r := Ok(());
      case CalledPrevious =>
        var removed :- cal.Remove(index);
        calledLast := CalledRemove;
        r := Ok(());
    }

    /**
     * `remove()` as evidently intended: when the removal empties the list the
     * iterator takes the state an iterator on an empty list has, both indices
     * -1, instead of dividing by the new size zero.
     */
    method RemoveGuarded() returns (r: Result<()>)
      modifies this, cal
      ensures r != Throw(Arithmetic)
      ensures old(calledLast) !in {CalledNext, CalledPrevious} ==>
        r == Throw(IllegalState) && cal.list == old(cal.list) &&
        index == old(index) && startIndex == old(startIndex) && calledLast == old(calledLast)
      ensures old(calledLast) in {CalledNext, CalledPrevious} && old(cal.list) != [] ==>
        r == Ok(()) && calledLast == CalledRemove &&
        cal.list == RemovedAt(old(cal.list), if old(calledLast) == CalledNext then old(index) - 1 else old(index))
      ensures old(calledLast) == CalledNext && |old(cal.list)| == 1 ==>
        cal.list == [] && index == -1 && startIndex == -1 && !HasNext() && !HasPrev()
    {
      match calledLast
      case CalledRemove => r := Throw(IllegalState);
      case CalledAdd => r := Throw(IllegalState);
      case CalledNothing => r := Throw(IllegalState);
      case CalledNext =>
        index := index - 1;
        var removed :- cal.Remove(index);
        if |cal.list| == 0 {
          index := -1;
          startIndex := -1;
        } else if index <= JavaRem(startIndex, |cal.list|) {
          startIndex := startIndex - 1;
        }
        calledLast := CalledRemove;
        r := Ok(());
      case CalledPrevious =>
        var removed :- cal.Remove(index);
        calledLast := CalledRemove;
        r := Ok(());
    }

    /**
     * `add(obj)`: inserts `obj` through the list's `add(index, obj)` and
     * moves the cursor past it, so `previous()` would return `obj`.
     */
    method Add(obj: E)
      modifies this, cal
      ensures cal.list == Inserted(old(cal.list), old(index), obj)
      ensures index == old(index) + 1 && calledLast == CalledAdd
      ensures startIndex ==
        if JavaRem(old(index), |cal.list|) < JavaRem(old(startIndex), |cal.list|)
        then old(startIndex) + 1 else old(startIndex)
      ensures At(cal.list, index - 1) == Ok(obj)
    {
      cal.AddAt(index, obj);
      var n := |cal.list|;
      if JavaRem(index, n) < JavaRem(startIndex, n) {
        startIndex := startIndex + 1;
      }
      index := index + 1;
      calledLast := CalledAdd;
    }

    /**
     * `retEquals(other)`: whether the two iterators return the same elements
     * in the same order when `next()` is called on both as long as possible.
     */
    method RetEquals(other: CyclicArrayIterator<E>) returns (r: Result<bool>)
      modifies this, other
      ensures !old(HasNext()) || !old(other.HasNext()) ==> r == Ok(old(HasNext()) == old(other.HasNext()))
      ensures old(HasNext()) && old(other.HasNext()) && (old(cal.list) == [] || old(other.cal.list) == []) ==>
        r == Throw(EmptyCyclicList)
      ensures this != other && old(cal.list) != [] && old(other.cal.list) != [] ==>
        r.Ok? && (r.value <==> old(Remaining()) == old(other.Remaining()))
      ensures this == other && old(cal.list) != [] ==> r == SelfRetEquals(old(Remaining()))
    {
      ghost var s1, s2 := Remaining(), other.Remaining();
      ghost var nonEmpty := this != other && cal.list != [] && other.cal.list != [];
      ghost var moves := HasNext() && other.HasNext() && cal.list != [] && other.cal.list != [];
      while HasNext() && other.HasNext()
        invariant cal.list == old(cal.list) && other.cal.list == old(other.cal.list)
        invariant startIndex == old(startIndex) && other.startIndex == old(other.startIndex)
        invariant !moves ==> index == old(index) && other.index == old(other.index)
        invariant nonEmpty ==> (s1 == s2 <==> Remaining() == other.Remaining())
        invariant this == other && cal.list != [] ==> SelfRetEquals(s1) == SelfRetEquals(Remaining())
        decreases startIndex + |cal.list| - index
      {
        ghost var r1, r2 := Remaining(), other.Remaining();
        var pair :- NextBoth(other);
        var thi, obj := pair.0, pair.1;
        if thi != obj {
          return Ok(false);
        }
        assert nonEmpty ==> r1 == [thi] + r1[1..] && r2 == [obj] + r2[1..];
      }
      if HasNext() != other.HasNext() {
        return Ok(false);
      }
      return Ok(true);
    }

    /** The two calls `this.next()` and `other.next()` of one round of `retEquals`. */
    method NextBoth(other: CyclicArrayIterator<E>) returns (r: Result<(E, E)>)
      requires HasNext() && other.HasNext()
      modifies this, other
      ensures cal.list == old(cal.list) && other.cal.list == old(other.cal.list)
      ensures startIndex == old(startIndex) && other.startIndex == old(other.startIndex)
      ensures index > old(index)
      ensures this != other && cal.list != [] && other.cal.list != [] ==>
        r.Ok? && r.value.0 == old(Remaining())[0] && r.value.1 == old(other.Remaining())[0] &&
        Remaining() == old(Remaining())[1..] && other.Remaining() == old(other.Remaining())[1..]
      ensures cal.list == [] || other.cal.list == [] ==> r == Throw(EmptyCyclicList)
      ensures this == other && cal.list != [] && |old(Remaining())| == 1 ==> r == Throw(NoSuchElement)
      ensures this == other && cal.list != [] && |old(Remaining())| >= 2 ==>
        r == Ok((old(Remaining())[0], old(Remaining())[1])) && Remaining() == old(Remaining())[2..]
    {
      var thi :- Next();
      var obj :- other.Next();
      return Ok((thi, obj));
    }
  }

  /**
   * `remove()` after `next()` on a one-element list, as written: the element
   * is gone, yet the call ends in `ArithmeticException` (a remainder modulo
   * the new size 0), and the iterator is left in state `CalledNext`.
   */
  method RemoveEmptiesThenFails() returns (r: Result<()>, size: nat, last: LastCall)
    ensures r == Throw(Arithmetic) && size == 0 && last == CalledNext
  {
    var l := new CyclicArrayList.FromSeq([7]);
    var it := new CyclicArrayIterator(l, 0);
    var x := it.Next();
    r := it.Remove();
    size := |l.list|;
    last := it.calledLast;
  }

  /** The same calls with the guarded `remove()` succeed. */
  method RemoveGuardedEmpties() returns (r: Result<()>, size: nat, hasNext: bool)
    ensures r == Ok(()) && size == 0 && !hasNext
  {
    var l := new CyclicArrayList.FromSeq([7]);
    var it := new CyclicArrayIterator(l, 0);
    var x := it.Next();
    r := it.RemoveGuarded();
    size := |l.list|;
    hasNext := it.HasNext();
  }
}
