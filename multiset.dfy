/**
 * `AbstractMultiSet`: a multi-set stored as a map from each element to its
 * multiplicity, which is always strictly positive, so that an element is in
 * the set exactly when it is a key.  Multiplicities are Java `int`s and
 * change through `MultiplicityImpl.add`, whose sum wraps around.
 */
module MultiSets {
  import opened JavaLang

  // ---------------------------------------------------------------------
  // Multiplicities
  // ---------------------------------------------------------------------

  /** What `MultiplicityImpl.add(d)` returns or throws, and the value it leaves. */
  datatype AddOutcome = AddOutcome(result: Result<int>, after: int)

  /**
   * `MultiplicityImpl.add(d)` on the value `m`: the wrapped sum is kept and
   * returned when positive; zero is kept and reported as `IllegalState`; a
   * negative sum is undone and reported as `IllegalArgument`.
   */
  function AddToMult(m: int, d: int): (o: AddOutcome)
    requires IsInt(m) && IsInt(d)
    ensures IsInt(m + d) && m + d > 0 ==> o == AddOutcome(Ok(m + d), m + d)
    ensures m + d == 0 ==> o == AddOutcome(Throw(IllegalState), 0)
    ensures IsInt(m + d) && m + d < 0 ==> o == AddOutcome(Throw(IllegalArgument), m)
    ensures m + d > INT_MAX ==> o == AddOutcome(Throw(IllegalArgument), m)
    ensures -0x1_0000_0000 < m + d < INT_MIN ==>
      o == AddOutcome(Ok(m + d + 0x1_0000_0000), m + d + 0x1_0000_0000)
  {
    var s := WrapInt(m + d);
    if s <= 0 then
      if s == 0 then AddOutcome(Throw(IllegalState), 0)
      else AddOutcome(Throw(IllegalArgument), WrapInt(s - d))
    else AddOutcome(Ok(s), s)
  }

  /** `MultiplicityImpl`: a mutable wrapper of one multiplicity. */
  class MultiplicityImpl {
    var mult: int

    /** The private constructor stores `m` through `set`, so `m` must be positive. */
    constructor (m: int)
      requires m > 0
      ensures mult == m
    {
      mult := m;
    }

    /** `create(m)`: throws `IllegalArgumentException` unless `m > 0`. */
    static method Create(m: int) returns (r: Result<MultiplicityImpl>)
      ensures m <= 0 ==> r == Throw(IllegalArgument)
      ensures m > 0 ==> r.Ok? && fresh(r.value) && r.value.mult == m
    {
      if m <= 0 {
        return Throw(IllegalArgument);
      }
      var c := new MultiplicityImpl(m);
      return Ok(c);
    }

    /** `set(m)`: returns the old multiplicity. */
    method Set(m: int) returns (r: Result<int>)
      modifies this
      ensures m <= 0 ==> r == Throw(IllegalArgument) && mult == old(mult)
      ensures m > 0 ==> r == Ok(old(mult)) && mult == m
    {
      if m <= 0 {
        return Throw(IllegalArgument);
      }
      r := Ok(mult);
      mult := m;
    }

    /** `add(d)`. */
    method Add(d: int) returns (r: Result<int>)
      requires IsInt(mult) && IsInt(d)
      modifies this
      ensures r == AddToMult(old(mult), d).result
      ensures mult == AddToMult(old(mult), d).after
    {
      mult := WrapInt(mult + d);
      if mult <= 0 {
        if mult == 0 {
          return Throw(IllegalState);
        }
        mult := WrapInt(mult - d);
        return Throw(IllegalArgument);
      }
      return Ok(mult);
    }

    /** `get()`: the multiplicity `set` or `add` left last. */
    function Get(): (m: int)
      reads this
      ensures m == mult
    {
      mult
    }
  }

  // ---------------------------------------------------------------------
  // Sums and maxima over a multiplicity map
  // ---------------------------------------------------------------------

  /** Every multiplicity is a positive Java `int`. */
  ghost predicate PositiveMults<T>(m: map<T, int>)
  {
    forall o :: o in m ==> 0 < m[o] <= INT_MAX
  }

  /** The multiplicity of `o`, zero for an element not in the set. */
  function MultOf<T>(m: map<T, int>, o: T): int
  {
    if o in m then m[o] else 0
  }

  /** Some element of a non-empty map. */
  ghost function Pick<T>(m: map<T, int>): (k: T)
    requires m != map[]
    ensures k in m
  {
    var k :| k in m; k
  }

  /** The sum of all multiplicities, as a mathematical integer. */
  ghost function Total<T>(m: map<T, int>): int
    decreases |m|
  {
    if m == map[] then 0
    else m[Pick(m)] + Total(m - {Pick(m)})
  }

  /** The sum can be split at any key, whichever key the definition picks. */
  lemma {:induction false} TotalRemove<T>(m: map<T, int>, k: T)
    requires k in m
    ensures Total(m) == m[k] + Total(m - {k})
    decreases |m|
  {
    var j := Pick(m);
    if j != k {
      assert (m - {j}) - {k} == (m - {k}) - {j};
      TotalRemove(m - {j}, k);
      TotalRemove(m - {k}, j);
    }
  }

  /** With positive multiplicities the sum is at least the number of elements. */
  lemma {:induction false} TotalAtLeastSize<T>(m: map<T, int>)
    requires PositiveMults(m)
    ensures Total(m) >= |m|
    ensures Total(m) == 0 <==> m == map[]
    decreases |m|
  {
    if |m| > 0 {
      var k :| k in m;
      TotalRemove(m, k);
      TotalAtLeastSize(m - {k});
    }
  }

  /** Changing one multiplicity changes the sum by the difference. */
  lemma TotalUpdate<T>(m: map<T, int>, k: T, v: int)
    ensures Total(m[k := v]) == Total(m) - MultOf(m, k) + v
  {
    TotalRemove(m[k := v], k);
    assert m[k := v] - {k} == m - {k};
    if k in m {
      TotalRemove(m, k);
    } else {
      assert m - {k} == m;
    }
  }

  /** The pointwise sum of two multiplicity maps: the union of multi-sets. */
  function PointwiseSum<T>(a: map<T, int>, b: map<T, int>): (r: map<T, int>)
    ensures r.Keys == a.Keys + b.Keys
  {
    map o | o in a.Keys + b.Keys :: MultOf(a, o) + MultOf(b, o)
  }

  /** The multiplicity 1 for each member of `s`. */
  function Indicator<T>(s: set<T>): (r: map<T, int>)
    ensures r.Keys == s
  {
    map o | o in s :: 1
  }

  /** Taking one key of `b` out of a pointwise sum and putting it back. */
  lemma PointwiseSumStep<T>(a: map<T, int>, b: map<T, int>, k: T)
    requires k in b
    ensures PointwiseSum(a, b) == PointwiseSum(a, b - {k})[k := MultOf(a, k) + b[k]]
  {
    var lhs, rhs := PointwiseSum(a, b), PointwiseSum(a, b - {k})[k := MultOf(a, k) + b[k]];
    assert lhs.Keys == rhs.Keys;
    forall o | o in lhs.Keys
      ensures lhs[o] == rhs[o]
    {
      if o != k {
        assert MultOf(b, o) == MultOf(b - {k}, o);
      }
    }
  }

  lemma PointwiseSumEmpty<T>(a: map<T, int>)
    ensures PointwiseSum(a, map[]) == a
  {
    var p := PointwiseSum(a, map[]);
    assert forall o :: o in p ==> p[o] == a[o];
  }

  /** One induction step of `TotalPointwiseSum`. */
  lemma TotalPointwiseSumStep<T>(a: map<T, int>, b: map<T, int>, k: T)
    requires k in b
    requires Total(PointwiseSum(a, b - {k})) == Total(a) + Total(b - {k})
    ensures Total(PointwiseSum(a, b)) == Total(a) + Total(b)
  {
    var p' := PointwiseSum(a, b - {k});
    var v := MultOf(a, k) + b[k];
    PointwiseSumStep(a, b, k);
    TotalUpdate(p', k, v);
    assert MultOf(p', k) == MultOf(a, k);
    TotalRemove(b, k);
  }

  /** `cur` is `a` with the entries of `b` whose keys are not in `rest` added. */
  ghost predicate PartialSum<T>(cur: map<T, int>, a: map<T, int>, b: map<T, int>, rest: set<T>)
  {
    (forall o :: o in cur ==> o in a || (o in b && o !in rest)) &&
    (forall o :: o in a ==> o in cur && cur[o] == a[o] + (if o in b && o !in rest then b[o] else 0)) &&
    (forall o :: o in b && o !in rest ==> o in cur && cur[o] == MultOf(a, o) + b[o])
  }

  /** With nothing left to add, the partial sum is the pointwise sum. */
  lemma PartialSumDone<T>(cur: map<T, int>, a: map<T, int>, b: map<T, int>)
    requires PartialSum(cur, a, b, {})
    ensures cur == PointwiseSum(a, b)
  {
    var p := PointwiseSum(a, b);
    assert cur.Keys == p.Keys;
    forall o | o in cur
      ensures cur[o] == p[o]
    {
      assert MultOf(cur, o) == MultOf(a, o) + MultOf(b, o);
    }
  }

  /** The union of multi-sets adds their total sizes. */
  lemma {:induction false} TotalPointwiseSum<T>(a: map<T, int>, b: map<T, int>)
    ensures Total(PointwiseSum(a, b)) == Total(a) + Total(b)
    decreases |b|
  {
    if b == map[] {
      PointwiseSumEmpty(a);
    } else {
      var k := Pick(b);
      TotalPointwiseSum(a, b - {k});
      TotalPointwiseSumStep(a, b, k);
    }
  }

  // ---------------------------------------------------------------------
  // The multi-set
  // ---------------------------------------------------------------------

  class MultiSet<T(==)> {
    /** Each element with its multiplicity. */
    var obj2mult: map<T, int>

    ghost predicate Valid()
      reads this
    {
      PositiveMults(obj2mult)
    }

    constructor ()
      ensures obj2mult == map[] && Valid()
    {
      obj2mult := map[];
    }

    /** `size()`: the number of distinct elements, at most the sum of their multiplicities. */
    function Size(): (n: nat)
      reads this
      ensures n == 0 <==> obj2mult == map[]
      ensures Valid() ==> n <= Total(obj2mult)
    {
      assert Valid() ==> |obj2mult| <= Total(obj2mult) by {
        if Valid() {
          TotalAtLeastSize(obj2mult);
        }
      }
      |obj2mult|
    }

    /** `getMultiplicity(obj)`: 0 exactly for an element not in the set. */
    function GetMultiplicity(obj: T): (r: int)
      reads this
      ensures Valid() ==> 0 <= r <= INT_MAX
      ensures Valid() ==> (r == 0 <==> obj !in obj2mult)
    {
      MultOf(obj2mult, obj)
    }

    /** `contains(obj)`: whether `obj` has a multiplicity. */
    predicate Contains(obj: T)
      reads this
      ensures Valid() ==> (Contains(obj) <==> GetMultiplicity(obj) > 0)
    {
      obj in obj2mult
    }

    /**
     * `sizeWithMult()`: the sum of the multiplicities, `Integer.MAX_VALUE` as
     * soon as the running `int` sum overflows.
     */
    method SizeWithMult() returns (r: int)
      requires Valid()
      ensures r == if Total(obj2mult) > INT_MAX then INT_MAX else Total(obj2mult)
      ensures r >= Size() || r == INT_MAX
    {
      TotalAtLeastSize(obj2mult);
      var result := 0;
      var rest := obj2mult;
      while rest != map[]
        invariant rest.Keys <= obj2mult.Keys
        invariant forall o :: o in rest ==> rest[o] == obj2mult[o]
        invariant 0 <= result <= INT_MAX
        invariant result + Total(rest) == Total(obj2mult)
        decreases |rest|
      {
        var k :| k in rest;
        TotalRemove(rest, k);
        result := WrapInt(result + rest[k]);
        if result < 0 {
          TotalAtLeastSize(rest - {k});
          return INT_MAX;
        }
        rest := rest - {k};
      }
      return result;
    }

    /**
     * `getMaxObjWithMult()`: an entry of maximal multiplicity, found by
     * keeping the first candidate whose multiplicity exceeds the best so far
     * (starting from 0); `null` for the empty set.
     */
    method GetMaxObjWithMult() returns (r: Option<T>)
      requires Valid()
      ensures r == None <==> obj2mult == map[]
      ensures r.Some? ==> r.value in obj2mult
      ensures r.Some? ==> forall o :: o in obj2mult ==> obj2mult[o] <= obj2mult[r.value]
    {
      var maxCand: Option<T> := None;
      var maxVal := 0;
      var rest := obj2mult.Keys;
      while rest != {}
        invariant rest <= obj2mult.Keys
        invariant maxCand == None <==> rest == obj2mult.Keys
        invariant maxCand == None ==> maxVal == 0
        invariant maxCand.Some? ==> maxCand.value in obj2mult && maxVal == obj2mult[maxCand.value]
        invariant forall o :: o in obj2mult && o !in rest ==> obj2mult[o] <= maxVal
        decreases |rest|
      {
        var cand :| cand in rest;
        var cmpVal := obj2mult[cand];
        if maxVal < cmpVal {
          maxCand := Some(cand);
          maxVal := cmpVal;
        }
        rest := rest - {cand};
      }
      r := maxCand;
    }

    /** `getObjWithMaxMult()`: an element of maximal multiplicity, or `null`. */
    method GetObjWithMaxMult() returns (r: Option<T>)
      requires Valid()
      ensures r == None <==> obj2mult == map[]
      ensures r.Some? ==> r.value in obj2mult
      ensures r.Some? ==> forall o :: o in obj2mult ==> obj2mult[o] <= obj2mult[r.value]
    {
      if obj2mult == map[] {
        return None;
      }
      r := GetMaxObjWithMult();
    }

    /** `getMaxMult()`: the largest multiplicity, 0 for the empty set. */
    method GetMaxMult() returns (r: int)
      requires Valid()
      ensures r == 0 <==> obj2mult == map[]
      ensures forall o :: o in obj2mult ==> obj2mult[o] <= r
      ensures obj2mult != map[] ==> exists o :: o in obj2mult && obj2mult[o] == r
    {
      if obj2mult == map[] {
        return 0;
      }
      var e := GetMaxObjWithMult();
      r := obj2mult[e.value];
    }

    /**
     * `addWithMult(obj, n)`: adds `n` copies and returns the new
     * multiplicity; an element not yet present is only put for `n != 0`.
     */
    method AddWithMult(obj: T, n: int) returns (r: Result<int>)
      requires Valid() && IsInt(n)
      modifies this
      ensures Valid()
      ensures n < 0 ==> r == Throw(IllegalArgument) && obj2mult == old(obj2mult)
      ensures 0 <= n && old(GetMultiplicity(obj)) + n <= INT_MAX ==>
        r == Ok(old(GetMultiplicity(obj)) + n) &&
        obj2mult == if n == 0 then old(obj2mult) else old(obj2mult)[obj := old(GetMultiplicity(obj)) + n]
      ensures 0 <= n && old(GetMultiplicity(obj)) + n > INT_MAX ==>
        r == Throw(IllegalArgument) && obj2mult == old(obj2mult)
    {
      if n < 0 {
        return Throw(IllegalArgument);
      }
      if obj !in obj2mult {
        if n != 0 {
          obj2mult := obj2mult[obj := n];
        }
        return Ok(n);
      }
      var o := AddToMult(obj2mult[obj], n);
      obj2mult := obj2mult[obj := o.after];
      r := o.result;
    }

    /**
     * `add(obj)`: one more copy; true iff `obj` was new.  At multiplicity
     * `Integer.MAX_VALUE` the increment overflows and is rejected.
     */
    method Add(obj: T) returns (r: Result<bool>)
      requires Valid()
      modifies this
      ensures Valid()
      ensures old(GetMultiplicity(obj)) < INT_MAX ==>
        r == Ok(obj !in old(obj2mult)) &&
        obj2mult == old(obj2mult)[obj := old(GetMultiplicity(obj)) + 1]
      ensures old(GetMultiplicity(obj)) == INT_MAX ==>
        r == Throw(IllegalArgument) && obj2mult == old(obj2mult)
    {
      if obj !in obj2mult {
        obj2mult := obj2mult[obj := 1];
        return Ok(true);
      }
      var o := AddToMult(obj2mult[obj], 1);
      obj2mult := obj2mult[obj := o.after];
      var added :- o.result;
      r := Ok(false);
    }

    /**
     * `removeWithMult(obj, n)`: removes `n` copies and returns the old
     * multiplicity; removing all copies removes the element.
     */
    method RemoveWithMult(obj: T, n: int) returns (r: Result<int>)
      requires Valid() && IsInt(n)
      modifies this
      ensures Valid()
      ensures n < 0 ==> r == Throw(IllegalArgument) && obj2mult == old(obj2mult)
      ensures 0 <= n && obj !in old(obj2mult) ==>
        r == (if n == 0 then Ok(0) else Throw(IllegalArgument)) && obj2mult == old(obj2mult)
      ensures 0 <= n && obj in old(obj2mult) && n == old(obj2mult)[obj] ==>
        r == Ok(n) && obj2mult == old(obj2mult) - {obj}
      ensures 0 <= n && obj in old(obj2mult) && n < old(obj2mult)[obj] ==>
        r == Ok(old(obj2mult)[obj]) && obj2mult == old(obj2mult)[obj := old(obj2mult)[obj] - n]
      ensures 0 <= n && obj in old(obj2mult) && n > old(obj2mult)[obj] ==>
        r == Throw(IllegalArgument) && obj2mult == old(obj2mult)
    {
      if n < 0 {
        return Throw(IllegalArgument);
      }
      if obj !in obj2mult {
        if n != 0 {
          return Throw(IllegalArgument);
        }
        return Ok(0);
      }
      var ret := obj2mult[obj];
      if ret == n {
        obj2mult := obj2mult - {obj};
      } else {
        var o := AddToMult(ret, -n);
        obj2mult := obj2mult[obj := o.after];
        var newMult :- o.result;
      }
      r := Ok(ret);
    }

    /** `remove(obj)`: removes every copy; true iff `obj` was present. */
    method Remove(obj: T) returns (r: bool)
      requires Valid()
      modifies this
      ensures Valid() && !Contains(obj)
      ensures r == (obj in old(obj2mult)) && obj2mult == old(obj2mult) - {obj}
    {
      r := obj in obj2mult;
      obj2mult := obj2mult - {obj};
    }

    /**
     * `setMultiplicity(obj, n)`: returns the old multiplicity (0 if absent);
     * multiplicity 0 removes the element.
     */
    method SetMultiplicity(obj: T, n: int) returns (r: Result<int>)
      requires Valid() && IsInt(n)
      modifies this
      ensures Valid()
      ensures n < 0 ==> r == Throw(IllegalArgument) && obj2mult == old(obj2mult)
      ensures n >= 0 ==> r == Ok(old(GetMultiplicity(obj))) && GetMultiplicity(obj) == n
      ensures n == 0 ==> obj2mult == old(obj2mult) - {obj}
      ensures n > 0 ==> obj2mult == old(obj2mult)[obj := n]
    {
      if n < 0 {
        return Throw(IllegalArgument);
      }
      r := Ok(GetMultiplicity(obj));
      if n == 0 {
        obj2mult := obj2mult - {obj};
      } else {
        obj2mult := obj2mult[obj := n];
      }
    }

    /**
     * `addAll(mvs)`: adds the multiplicities of `mvs` pointwise; true iff some
     * element was new.  An element whose sum overflows stops the loop with
     * `IllegalArgumentException`: the elements visited before it are added,
     * the overflowing one and the rest are not, in an order left open.
     */
    method AddAll(mvs: MultiSet<T>) returns (r: Result<bool>)
      requires Valid() && mvs.Valid()
      modifies this
      ensures Valid()
      ensures r.Throw? <==>
        exists o :: o in old(obj2mult) && o in old(mvs.obj2mult) &&
          old(obj2mult)[o] + old(mvs.obj2mult)[o] > INT_MAX
      ensures r.Throw? ==> r == Throw(IllegalArgument)
      ensures r.Throw? ==>
        exists rest :: rest <= old(mvs.obj2mult).Keys &&
          (exists o :: o in rest && o in old(obj2mult) && old(obj2mult)[o] + old(mvs.obj2mult)[o] > INT_MAX) &&
          PartialSum(obj2mult, old(obj2mult), old(mvs.obj2mult), rest)
      ensures r.Ok? ==>
        obj2mult == PointwiseSum(old(obj2mult), old(mvs.obj2mult)) &&
        (r.value <==> exists o :: o in old(mvs.obj2mult) && o !in old(obj2mult))
    {
      var other := mvs.obj2mult;
      r := AddAllFrom(other);
    }

    /** `addAll(set)`: adds one copy of each member of `set`; true iff some was new. */
    method AddAllSet(s: set<T>) returns (r: Result<bool>)
      requires Valid()
      modifies this
      ensures Valid()
      ensures r.Throw? <==> exists o :: o in s && o in old(obj2mult) && old(obj2mult)[o] == INT_MAX
      ensures r.Throw? ==> r == Throw(IllegalArgument)
      ensures r.Throw? ==>
        exists rest :: rest <= s &&
          (exists o :: o in rest && o in old(obj2mult) && old(obj2mult)[o] == INT_MAX) &&
          PartialSum(obj2mult, old(obj2mult), Indicator(s), rest)
      ensures r.Ok? ==>
        obj2mult == PointwiseSum(old(obj2mult), Indicator(s)) &&
        (r.value <==> exists o :: o in s && o !in old(obj2mult))
    {
      r := AddAllFrom(Indicator(s));
    }

    /** The loop both `addAll` methods run, over the entries of `other`. */
    method AddAllFrom(other: map<T, int>) returns (r: Result<bool>)
      requires Valid() && PositiveMults(other)
      modifies this
      ensures Valid()
      ensures r.Throw? <==>
        exists o :: o in old(obj2mult) && o in other && old(obj2mult)[o] + other[o] > INT_MAX
      ensures r.Throw? ==> r == Throw(IllegalArgument)
      ensures r.Throw? ==>
        exists rest :: rest <= other.Keys &&
          (exists o :: o in rest && o in old(obj2mult) && old(obj2mult)[o] + other[o] > INT_MAX) &&
          PartialSum(obj2mult, old(obj2mult), other, rest)
      ensures r.Ok? ==>
        obj2mult == PointwiseSum(old(obj2mult), other) &&
        (r.value <==> exists o :: o in other && o !in old(obj2mult))
    {
      ghost var start := obj2mult;
      var added := false;
      var rest := other.Keys;
      while rest != {}
        invariant Valid()
        invariant rest <= other.Keys
        invariant PartialSum(obj2mult, start, other, rest)
        invariant forall o :: o in other && o !in rest ==> MultOf(start, o) + other[o] <= INT_MAX
        invariant added <==> exists o :: o in other && o !in rest && o !in start
        decreases |rest|
      {
        var cand :| cand in rest;
        assert MultOf(obj2mult, cand) == MultOf(start, cand);
        var ok, isNew := PutOrAdd(cand, other[cand]);
        if !ok {
          assert cand in rest && cand in start && start[cand] + other[cand] > INT_MAX;
          return Throw(IllegalArgument);
        }
        added := added || isNew;
        rest := rest - {cand};
      }
      PartialSumDone(obj2mult, start, other);
      r := Ok(added);
    }

    /**
     * One step of the `addAll` loops: a new element is put with multiplicity
     * `d`, a present one has `d` added to its multiplicity, which is left
     * unchanged when the sum overflows.
     */
    method PutOrAdd(cand: T, d: int) returns (ok: bool, isNew: bool)
      requires Valid() && 0 < d <= INT_MAX
      modifies this
      ensures Valid()
      ensures isNew == (cand !in old(obj2mult))
      ensures ok == (MultOf(old(obj2mult), cand) + d <= INT_MAX)
      ensures ok ==> obj2mult == old(obj2mult)[cand := MultOf(old(obj2mult), cand) + d]
      ensures !ok ==> obj2mult == old(obj2mult)
    {
      isNew := cand !in obj2mult;
      if isNew {
        obj2mult := obj2mult[cand := d];
        ok := true;
      } else {
        var o := AddToMult(obj2mult[cand], d);
        obj2mult := obj2mult[cand := o.after];
        ok := o.result.Ok?;
      }
    }

    /** `removeAll(coll)`: removes every element of `coll`; true iff one was present. */
    method RemoveAll(coll: seq<T>) returns (r: bool)
      requires Valid()
      modifies this
      ensures Valid()
      ensures obj2mult == old(obj2mult) - (set c | c in coll)
      ensures r <==> exists c :: c in coll && c in old(obj2mult)
    {
      ghost var start := obj2mult;
      var thisChanged := false;
      for i := 0 to |coll|
        invariant Valid()
        invariant obj2mult == start - (set c | c in coll[..i])
        invariant thisChanged <==> exists c :: c in coll[..i] && c in start
      {
        var removed := Remove(coll[i]);
        thisChanged := thisChanged || removed;
        assert coll[..i + 1] == coll[..i] + [coll[i]];
      }
      assert coll[..|coll|] == coll;
      r := thisChanged;
    }

    method Clear()
      modifies this
      ensures obj2mult == map[] && Valid()
    {
      obj2mult := map[];
    }
  }
}
