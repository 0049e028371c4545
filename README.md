# SUtils core in Dafny

A Dafny model of the data structures and string utilities in the Java library
`eu.simuline.util`, with proofs of what their documentation promises:

- `CyclicArrayList`: a list addressed modulo its length, with its cursor `CyclicArrayIterator`
  (module `CyclicLists`, `cyclic_list.dfy`);
- `AbstractMultiSet`: a multiset kept as a map from elements to strictly positive multiplicities,
  and its `MultiplicityImpl` counter (module `MultiSets`, `multiset.dfy`);
- `ArraySet`: a sorted set backed by a strictly increasing list, including the recursive in-place
  merge `addList` (module `ArraySets`, `array_set.dfy`);
- `JavaPath`: conversions between class names and file names relative to a class path
  (module `JavaPaths`, `java_path.dfy`);
- `Benchmarker`: the `mtic`/`mtoc` stop watch and its `Snapshot` (module `Benchmarking`, `benchmarker.dfy`);
- `Strings.getBlanks`: blank strings cut from a shared growing buffer (module `StringUtils`, `strings.dfy`).

Module `JavaLang` (`java_lang.dfy`) holds what the models share from the Java platform:
- the exceptions as a datatype;
- `Result` (a value or a thrown exception) and `Option` (a value or `null`);
- `int`/`long` wrap-around;
- truncating `/` and `%`.

Objects the source updates in place are Dafny classes. Their lists and maps are `seq` and `map`
fields that the methods reassign. Each method is proved against a function on values, or states
its new state. A loop that an exception stops part-way leaves the state its invariant describes.
The properties are proved as lemmas about those functions.

- Elements are compared with Dafny's `==`, standing for `equals`; no element is `null`.
- `ArraySet` holds `int`s in their natural order.
- Static fields (`Benchmarker`, `Strings`) are the fields of one object of a class.
- Clock and memory readings, the garbage collector clearing a weak reference, the path splitter
  and the file separator are parameters.

## Model

| member | source | states |
|---|---|---|
| CyclicLists.ShiftIndexBy | src/main/java/eu/simuline/util/CyclicArrayList.java:1137-1145 | throws `EmptyCyclicListException` iff the size is 0, otherwise a position in `[0, size)` congruent to the index |
| CyclicLists.At | src/main/java/eu/simuline/util/CyclicArrayList.java:1160-1162 | `get(index)` throws on an empty list, otherwise is the element at the index reduced modulo the size |
| CyclicLists.AtPeriodic | src/main/java/eu/simuline/util/CyclicArrayList.java:1147-1162 | `get(i + k * size()) == get(i)` for every `k`, on empty and non-empty lists |
| CyclicLists.AtAfterUpdate | src/main/java/eu/simuline/util/CyclicArrayList.java:1182-1187 | after `set(i, e)`, `get(i)` is `e` and every index not congruent to `i` reads as before |
| CyclicLists.Inserted | src/main/java/eu/simuline/util/CyclicArrayList.java:1363-1378 | `add(i, e)` grows the list by one, afterwards `get(i) == e`, and deleting that slot gives back the old list in order |
| CyclicLists.InsertedAtEnd | src/main/java/eu/simuline/util/CyclicArrayList.java:1381-1385 | adding at index `size()` appends |
| CyclicLists.InsertedAtFront | src/main/java/eu/simuline/util/CyclicArrayList.java:1363-1378 | adding at index 0 prepends |
| CyclicLists.InsertedAll | src/main/java/eu/simuline/util/CyclicArrayList.java:1276-1339 | `addAll(index, list)` grows the list by the length of the added list |
| CyclicLists.InsertedAllShape | src/main/java/eu/simuline/util/CyclicArrayList.java:1296-1338 | the two cases of `addAll(index, list)`: the added list fits before the end, or wraps around the end with the old list rotated |
| CyclicLists.InsertedAllAt | src/main/java/eu/simuline/util/CyclicArrayList.java:1276-1339 | after `addAll(index, l)`, `get(index + k) == l[k]` for every position `k` of `l` |
| CyclicLists.InsertedAllKeepsOld | src/main/java/eu/simuline/util/CyclicArrayList.java:1276-1339 | after `addAll(index, l)`, reading on from just after the inserted run gives back the old list, up to rotation |
| CyclicLists.KeepsOld | src/main/java/eu/simuline/util/CyclicArrayList.java:1296-1338 | in either copying case of `addAll`, `size()` elements read from just after the inserted run are the old list up to rotation |
| CyclicLists.Rotated | src/main/java/eu/simuline/util/CyclicArrayList.java:1057-1087 | a rotation keeps the length |
| CyclicLists.RotatedAt | src/main/java/eu/simuline/util/CyclicArrayList.java:1057-1087 | position `j` of the rotation by `k` holds the element at `(j + k) mod size` |
| CyclicLists.RotationOfRotated | src/main/java/eu/simuline/util/CyclicArrayList.java:1057-1087 | a list and any of its rotations are equal in the sense of `equals`, both ways |
| CyclicLists.Cycled | src/main/java/eu/simuline/util/CyclicArrayList.java:999-1023 | `cycle(index)` keeps the size |
| CyclicLists.CycleAt | src/main/java/eu/simuline/util/CyclicArrayList.java:999-1023 | `cycle(k).get(i) == get(i + k)` for every `i`, including the empty list |
| CyclicLists.CycleRotationEqual | src/main/java/eu/simuline/util/CyclicArrayList.java:986-1087 | `cycle(k)` equals the original list under `equals`, both ways |
| CyclicLists.RotationEqualSymmetric | src/main/java/eu/simuline/util/CyclicArrayList.java:1057-1087 | `equals` up to rotation is symmetric |
| CyclicLists.NoRotationBelow | src/main/java/eu/simuline/util/CyclicArrayList.java:1076-1082 | the invariant of the `equals` loop: no start before `i` makes this list read as the other |
| CyclicLists.Inverse | src/main/java/eu/simuline/util/CyclicArrayList.java:808-815 | `getInverse()` keeps the size |
| CyclicLists.InverseAt | src/main/java/eu/simuline/util/CyclicArrayList.java:808-815 | `getInverse().get(i) == get(-1 - i)` for every index |
| CyclicLists.InverseInvolutive | src/main/java/eu/simuline/util/CyclicArrayList.java:808-815 | inverting twice gives back the list |
| CyclicLists.InversePrefix | src/main/java/eu/simuline/util/CyclicArrayList.java:808-815 | the loop of `getInverse` adds each next element at the front |
| CyclicLists.ContainsAllCounterexample | src/main/java/eu/simuline/util/CyclicArrayList.java:839-847 | as written, `containsAll` holds for `[0]` and `[0, 1]`, where not every element is contained, and fails for an empty collection |
| CyclicLists.CyclicArrayList.constructor | src/main/java/eu/simuline/util/CyclicArrayList.java:738-740 | a new list is empty |
| CyclicLists.CyclicArrayList.FromSeq | src/main/java/eu/simuline/util/CyclicArrayList.java:762-764 | a list built from a list has its elements in its order |
| CyclicLists.CyclicArrayList.Size | src/main/java/eu/simuline/util/CyclicArrayList.java:788-799 | 0 iff the list is empty, and `get` succeeds at every index exactly when it is positive |
| CyclicLists.CyclicArrayList.ShiftIndex | src/main/java/eu/simuline/util/CyclicArrayList.java:1137-1139 | throws `EmptyCyclicListException` on an empty list, otherwise the position in `[0, size())` congruent to the index |
| CyclicLists.CyclicArrayList.Get | src/main/java/eu/simuline/util/CyclicArrayList.java:1160-1162 | throws `EmptyCyclicListException` on an empty list, otherwise the element at the index reduced modulo `size()` |
| CyclicLists.CyclicArrayList.Set | src/main/java/eu/simuline/util/CyclicArrayList.java:1182-1187 | throws on an empty list and changes nothing, otherwise returns the element at the reduced index and replaces just that slot |
| CyclicLists.CyclicArrayList.AddAt | src/main/java/eu/simuline/util/CyclicArrayList.java:1363-1378 | the new list is `Inserted(old list, index, element)`, also for an empty list |
| CyclicLists.CyclicArrayList.Add | src/main/java/eu/simuline/util/CyclicArrayList.java:1381-1385 | appends and returns `true` |
| CyclicLists.CyclicArrayList.AddAll | src/main/java/eu/simuline/util/CyclicArrayList.java:1276-1339 | the new list is `InsertedAll(old list, index, added list)`, built by the two copying cases; an empty added list changes nothing |
| CyclicLists.CyclicArrayList.Remove | src/main/java/eu/simuline/util/CyclicArrayList.java:1404-1407 | throws on an empty list, otherwise returns the element at the reduced index and deletes just that slot |
| CyclicLists.CyclicArrayList.Clear | src/main/java/eu/simuline/util/CyclicArrayList.java:1032-1034 | the list becomes empty |
| CyclicLists.CyclicArrayList.Cycle | src/main/java/eu/simuline/util/CyclicArrayList.java:999-1023 | returns a fresh list equal to `Cycled(list, index)`; the loops that bring the index into range keep it congruent |
| CyclicLists.RepeatCut | src/main/java/eu/simuline/util/CyclicArrayList.java:1515-1520 | `len / size()` copies of the list and the first `len % size()` elements of one more: `len` elements, element `m` being `get(m)` |
| CyclicLists.CyclicArrayList.GetCopy | src/main/java/eu/simuline/util/CyclicArrayList.java:1500-1523 | negative length throws `IllegalArgumentException`; an empty list with non-zero length throws `EmptyCyclicListException`; otherwise a fresh list of the given length whose element `i` is `get(i)` |
| CyclicLists.CyclicArrayList.GetInverse | src/main/java/eu/simuline/util/CyclicArrayList.java:808-815 | returns a fresh list equal to `Inverse(list)` |
| CyclicLists.CyclicArrayList.Contains | src/main/java/eu/simuline/util/CyclicArrayList.java:830-837 | true iff the object is an element |
| CyclicLists.CyclicArrayList.ContainsAll | src/main/java/eu/simuline/util/CyclicArrayList.java:839-847 | as written: true iff some element of the collection is contained |
| CyclicLists.CyclicArrayList.ContainsEveryElement | src/main/java/eu/simuline/util/CyclicArrayList.java:839-847 | corrected: true iff every element of the collection is contained |
| CyclicLists.CyclicArrayList.GetIndexOf | src/main/java/eu/simuline/util/CyclicArrayList.java:1476-1484 | -1 iff absent, otherwise the first position holding the object |
| CyclicLists.CyclicArrayList.Equals | src/main/java/eu/simuline/util/CyclicArrayList.java:1057-1087 | `false` for an object that is not a `CyclicList`; otherwise true iff that list is a rotation of this one |
| CyclicLists.CyclicArrayList.RotationMatches | src/main/java/eu/simuline/util/CyclicArrayList.java:1077-1083 | one round of the `equals` loop: two iterators started at `i` and `0` agree to the end iff the rotation by `i` is the other list |
| CyclicLists.RemovedAt | src/main/java/eu/simuline/util/CyclicArrayList.java:573-600 | removing one element of a non-empty list shortens it by one and adds no element |
| CyclicLists.Window | src/main/java/eu/simuline/util/CyclicArrayList.java:324-347 | what an iterator still yields has the length of its remaining steps |
| CyclicLists.WindowAt | src/main/java/eu/simuline/util/CyclicArrayList.java:340-347 | step `m` of the window from `from` yields the element at `(from + m) mod size` |
| CyclicLists.WindowRotated | src/main/java/eu/simuline/util/CyclicArrayList.java:204-214 | a full window from `k` is the rotation by `k` |
| CyclicLists.CyclicArrayIterator.constructor | src/main/java/eu/simuline/util/CyclicArrayList.java:204-214 | the index is the reduced start index (-1 on an empty list); on a non-empty list the iterator yields the list rotated to that index, `size()` elements |
| CyclicLists.CyclicArrayIterator.Remaining | src/main/java/eu/simuline/util/CyclicArrayList.java:324-347 | element `m` of what `next()` still returns is `get(index + m)`; on a non-empty list there are `startIndex + size() - index` of them, none once that is not positive |
| CyclicLists.CyclicArrayIterator.HasNext | src/main/java/eu/simuline/util/CyclicArrayList.java:324-326 | on a non-empty list, true iff `next()` has an element left to return |
| CyclicLists.CyclicArrayIterator.HasPrev | src/main/java/eu/simuline/util/CyclicArrayList.java:357-359 | on a non-empty list, true iff fewer than `size()` elements remain, that is, `next()` was called more often than `previous()` |
| CyclicLists.CyclicArrayIterator.Next | src/main/java/eu/simuline/util/CyclicArrayList.java:340-347 | throws `NoSuchElementException` without a next element; otherwise returns the first remaining element and advances by one |
| CyclicLists.CyclicArrayIterator.Previous | src/main/java/eu/simuline/util/CyclicArrayList.java:375-381 | throws `NoSuchElementException` without a previous element; otherwise steps back one and returns that element |
| CyclicLists.CyclicArrayIterator.Set | src/main/java/eu/simuline/util/CyclicArrayList.java:537-556 | throws `IllegalStateException` unless the last call was `next` or `previous`; otherwise replaces the element that call returned |
| CyclicLists.CyclicArrayIterator.Remove | src/main/java/eu/simuline/util/CyclicArrayList.java:573-600 | as written: throws `IllegalStateException` unless after `next`/`previous`; removes the element last returned; after `next` on a one-element list it ends in `ArithmeticException` |
| CyclicLists.CyclicArrayIterator.RemoveGuarded | src/main/java/eu/simuline/util/CyclicArrayList.java:573-600 | corrected: never throws `ArithmeticException`; removing the only element leaves an empty list and no next element |
| CyclicLists.CyclicArrayIterator.Add | src/main/java/eu/simuline/util/CyclicArrayList.java:468-478 | inserts at the cursor, moves the cursor past it, and the element is then just before the cursor |
| CyclicLists.SelfRetEquals | src/main/java/eu/simuline/util/CyclicArrayList.java:652-680 | `retEquals` of an iterator with itself: true iff an even number of elements remain and they pair up equal; `NoSuchElementException` iff an odd number remain and the full pairs are equal; otherwise false |
| CyclicLists.CyclicArrayIterator.RetEquals | src/main/java/eu/simuline/util/CyclicArrayList.java:652-680 | if one iterator has no next element, true iff the other has none either; if both have one but a list is empty, `EmptyCyclicListException`; for distinct iterators over non-empty lists, true iff both yield the same remaining elements; for an iterator with itself, `SelfRetEquals` of what remains |
| CyclicLists.CyclicArrayIterator.NextBoth | src/main/java/eu/simuline/util/CyclicArrayList.java:654-669 | one step of the `retEquals` loop: distinct iterators over non-empty lists yield their first remaining elements and advance; an empty list throws `EmptyCyclicListException`; one iterator takes two elements, and throws `NoSuchElementException` when only one remains |
| CyclicLists.RemoveEmptiesThenFails | src/main/java/eu/simuline/util/CyclicArrayList.java:585-592 | as written: `next` then `remove` on a one-element list empties it and then throws `ArithmeticException` |
| CyclicLists.RemoveGuardedEmpties | src/main/java/eu/simuline/util/CyclicArrayList.java:573-600 | corrected: the same calls succeed and leave an empty list with no next element |
| MultiSets.AddToMult | src/main/java/eu/simuline/util/AbstractMultiSet.java:119-135 | `MultiplicityImpl.add`: a positive sum is stored and returned; a zero sum throws `IllegalStateException`; a negative or overflowing sum throws `IllegalArgumentException` and keeps the old value |
| MultiSets.MultiplicityImpl.constructor | src/main/java/eu/simuline/util/AbstractMultiSet.java:71-73 | holds the given positive multiplicity |
| MultiSets.MultiplicityImpl.Create | src/main/java/eu/simuline/util/AbstractMultiSet.java:79-81 | a non-positive multiplicity throws `IllegalArgumentException`, otherwise a fresh counter holding it |
| MultiSets.MultiplicityImpl.Set | src/main/java/eu/simuline/util/AbstractMultiSet.java:93-102 | rejects a non-positive value and changes nothing; otherwise returns the old value and stores the new one |
| MultiSets.MultiplicityImpl.Add | src/main/java/eu/simuline/util/AbstractMultiSet.java:119-135 | result and new value are those of `AddToMult` |
| MultiSets.MultiplicityImpl.Get | src/main/java/eu/simuline/util/AbstractMultiSet.java:143-145 | the multiplicity stored last |
| MultiSets.Pick | src/main/java/eu/simuline/util/AbstractMultiSet.java:409-420 | picks a key of a non-empty map, the step of the summation |
| MultiSets.TotalRemove | src/main/java/eu/simuline/util/AbstractMultiSet.java:409-420 | the sum of multiplicities is any one multiplicity plus the sum of the rest |
| MultiSets.TotalAtLeastSize | src/main/java/eu/simuline/util/AbstractMultiSet.java:389-420 | with positive multiplicities, `sizeWithMult` is at least `size`, and 0 iff the multiset is empty |
| MultiSets.TotalUpdate | src/main/java/eu/simuline/util/AbstractMultiSet.java:728-749 | changing one multiplicity changes the sum by the difference |
| MultiSets.PointwiseSum | src/main/java/eu/simuline/util/AbstractMultiSet.java:986-1004 | the elements of a pointwise sum are those of both operands |
| MultiSets.Indicator | src/main/java/eu/simuline/util/AbstractMultiSet.java:1021-1035 | a set seen as a multiset with multiplicity 1 has the set's elements |
| MultiSets.PointwiseSumStep | src/main/java/eu/simuline/util/AbstractMultiSet.java:986-1004 | adding one more element of the other multiset is one step of the sum |
| MultiSets.PointwiseSumEmpty | src/main/java/eu/simuline/util/AbstractMultiSet.java:986-1004 | adding an empty multiset changes nothing |
| MultiSets.TotalPointwiseSumStep | src/main/java/eu/simuline/util/AbstractMultiSet.java:986-1004 | the induction step of `TotalPointwiseSum` |
| MultiSets.PartialSum | src/main/java/eu/simuline/util/AbstractMultiSet.java:986-1004 | the invariant of the `addAll` loops: the elements visited hold their sums, all others their old multiplicities |
| MultiSets.PartialSumDone | src/main/java/eu/simuline/util/AbstractMultiSet.java:986-1004 | once no element is left to add, the `addAll` loop has built the pointwise sum |
| MultiSets.TotalPointwiseSum | src/main/java/eu/simuline/util/AbstractMultiSet.java:986-1004 | after `addAll(mvs)` the sum of multiplicities is the sum of both (before saturation) |
| MultiSets.MultiSet.constructor | src/main/java/eu/simuline/util/AbstractMultiSet.java:367-369 | a new multiset is empty |
| MultiSets.MultiSet.Size | src/main/java/eu/simuline/util/AbstractMultiSet.java:389-393 | 0 iff the multiset is empty, and at most the sum of the multiplicities |
| MultiSets.MultiSet.GetMultiplicity | src/main/java/eu/simuline/util/AbstractMultiSet.java:526-530 | between 0 and `Integer.MAX_VALUE`, and 0 iff the object is not an element |
| MultiSets.MultiSet.Contains | src/main/java/eu/simuline/util/AbstractMultiSet.java:571-574 | true iff the multiplicity is positive |
| MultiSets.MultiSet.SizeWithMult | src/main/java/eu/simuline/util/AbstractMultiSet.java:409-420 | the sum of all multiplicities, saturating at `Integer.MAX_VALUE`; at least `size()` unless saturated |
| MultiSets.MultiSet.GetMaxObjWithMult | src/main/java/eu/simuline/util/AbstractMultiSet.java:458-473 | none iff empty, otherwise an element of maximal multiplicity |
| MultiSets.MultiSet.GetObjWithMaxMult | src/main/java/eu/simuline/util/AbstractMultiSet.java:486-491 | `null` iff empty, otherwise an element of maximal multiplicity |
| MultiSets.MultiSet.GetMaxMult | src/main/java/eu/simuline/util/AbstractMultiSet.java:503-508 | 0 iff empty, otherwise the maximum of the multiplicities |
| MultiSets.MultiSet.AddWithMult | src/main/java/eu/simuline/util/AbstractMultiSet.java:728-749 | negative `n` throws and changes nothing; otherwise the new multiplicity `old + n` is stored and returned, `n == 0` on an absent element changes nothing; overflow throws |
| MultiSets.MultiSet.Add | src/main/java/eu/simuline/util/AbstractMultiSet.java:792-802 | increments the multiplicity and returns whether the element was new; at `Integer.MAX_VALUE` throws and changes nothing |
| MultiSets.MultiSet.RemoveWithMult | src/main/java/eu/simuline/util/AbstractMultiSet.java:851-876 | negative `n`, an absent element with `n != 0`, or `n` above the multiplicity throw and change nothing; otherwise returns the old multiplicity and subtracts, removing the element when it reaches 0 |
| MultiSets.MultiSet.Remove | src/main/java/eu/simuline/util/AbstractMultiSet.java:900-907 | removes the element whatever its multiplicity, returns whether it was there, and afterwards it is not contained |
| MultiSets.MultiSet.SetMultiplicity | src/main/java/eu/simuline/util/AbstractMultiSet.java:926-940 | negative throws; 0 removes the element; otherwise sets it; returns the old multiplicity or 0 |
| MultiSets.MultiSet.AddAll | src/main/java/eu/simuline/util/AbstractMultiSet.java:986-1004 | adds multiplicities pointwise; throws `IllegalArgumentException` iff some sum overflows, leaving the elements visited before it with their sums and the rest, the overflowing one among them, as they were; returns whether some element was new |
| MultiSets.MultiSet.AddAllSet | src/main/java/eu/simuline/util/AbstractMultiSet.java:1021-1035 | adds each element of the set once; throws iff one is at `Integer.MAX_VALUE`, leaving the elements visited before it incremented and the rest as they were; returns whether some element was new |
| MultiSets.MultiSet.AddAllFrom | src/main/java/eu/simuline/util/AbstractMultiSet.java:986-1035 | the loop both `addAll`s share, proved against the pointwise sum; on an overflow the state is a `PartialSum` whose unvisited part holds the overflowing element |
| MultiSets.MultiSet.PutOrAdd | src/main/java/eu/simuline/util/AbstractMultiSet.java:993-1001 | the body of that loop: a new element is put, a present one has its multiplicity raised unless that overflows |
| MultiSets.MultiSet.RemoveAll | src/main/java/eu/simuline/util/AbstractMultiSet.java:1055-1062 | removes every element of the collection; returns whether one was present |
| MultiSets.MultiSet.Clear | src/main/java/eu/simuline/util/AbstractMultiSet.java:1105-1107 | the multiset becomes empty |
| ArraySets.SortedUnique | src/main/java/eu/simuline/util/ArraySet.java:80-85 | two strictly sorted lists with the same elements are equal |
| ArraySets.DistinctCard | src/main/java/eu/simuline/util/ArraySet.java:190-193 | a list without repetitions has as many elements as its set |
| ArraySets.MinIsHead | src/main/java/eu/simuline/util/ArraySet.java:700-706 | the head of a sorted list is its least element |
| ArraySets.HeadTail | src/main/java/eu/simuline/util/ArraySet.java:80-85 | dropping the head of a sorted list drops exactly that element |
| ArraySets.PrefixBelow | src/main/java/eu/simuline/util/ArraySet.java:679-687 | the positions before `i` hold exactly the elements below `s[i]` |
| ArraySets.SuffixFrom | src/main/java/eu/simuline/util/ArraySet.java:689-698 | the positions from `i` hold exactly the elements from `s[i]` up |
| ArraySets.Between | src/main/java/eu/simuline/util/ArraySet.java:663-677 | the positions `[i, j)` hold exactly the elements in `[s[i], s[j])` |
| ArraySets.BinarySearch | src/main/java/eu/simuline/util/ArraySet.java:229-240 | a non-negative result is a position of the key; a negative one encodes the insertion point, with smaller elements before and larger after it |
| ArraySets.SearchRange | src/main/java/eu/simuline/util/ArraySet.java:229-240 | the search loop on a range narrows the insertion point to that range |
| ArraySets.IndexOf | src/main/java/eu/simuline/util/ArraySet.java:663-698 | `indexOf`: -1 iff absent, otherwise the first position holding the element |
| ArraySets.InsertAt | src/main/java/eu/simuline/util/ArraySet.java:325-334 | inserting at the insertion point keeps the list sorted and adds just the element |
| ArraySets.RemoveAt | src/main/java/eu/simuline/util/ArraySet.java:350-352 | removing a position keeps the list sorted and drops just that element |
| ArraySets.MergeAround | src/main/java/eu/simuline/util/ArraySet.java:513-578 | merged lower halves, a common run and merged upper halves form the sorted union |
| ArraySets.FoundStep | src/main/java/eu/simuline/util/ArraySet.java:513-536 | the branch where the middle element of `list2` is found yields the sorted union |
| ArraySets.FoundFlag | src/main/java/eu/simuline/util/ArraySet.java:513-536 | in that branch, `list2` adds nothing iff both halves add nothing |
| ArraySets.GapStep | src/main/java/eu/simuline/util/ArraySet.java:554-578 | the branch where the middle element is missing yields the sorted union |
| ArraySets.AppendStep | src/main/java/eu/simuline/util/ArraySet.java:525-528 | appending what is above the window yields the sorted union |
| ArraySets.RunLength | src/main/java/eu/simuline/util/ArraySet.java:515-524 | the `do`-`while` run: both lists agree on it, and it stops at an end or a difference |
| ArraySets.AsWrittenFlag | src/main/java/eu/simuline/util/ArraySet.java:490-601 | the flag `addList` returns as written |
| ArraySets.AsWrittenFlagFound | src/main/java/eu/simuline/util/ArraySet.java:513-536 | that flag in the branch where the middle element was found |
| ArraySets.AsWrittenFlagSound | src/main/java/eu/simuline/util/ArraySet.java:490-601 | where the flag as written is `true`, `list2` has an element `list1` lacks |
| ArraySets.AsWrittenFlagFoundSound | src/main/java/eu/simuline/util/ArraySet.java:513-536 | the same for the found branch, from the lower and the upper recursion |
| ArraySets.AddListFlagMissesAppend | src/main/java/eu/simuline/util/ArraySet.java:525-528 | as written, merging `[x, y, z]` into `[x, y]` adds `z` but returns `false` |
| ArraySets.HeadList | src/main/java/eu/simuline/util/ArraySet.java:679-687 | `headSet(to)`: the elements below a present `to`, all elements for an absent one |
| ArraySets.TailList | src/main/java/eu/simuline/util/ArraySet.java:689-698 | `tailSet(from)`: the elements from a present `from` on, none for an absent one |
| ArraySets.SubList | src/main/java/eu/simuline/util/ArraySet.java:663-677 | `subSet(from, to)`: none for an absent `from`, the tail for an absent `to`, `IllegalArgumentException` iff `to < from`, otherwise the elements in `[from, to)` |
| ArraySets.ArraySet.constructor | src/main/java/eu/simuline/util/ArraySet.java:167-169 | a new set is empty |
| ArraySets.ArraySet.Size | src/main/java/eu/simuline/util/ArraySet.java:190-193 | the number of elements of the set |
| ArraySets.ArraySet.Contains | src/main/java/eu/simuline/util/ArraySet.java:229-240 | true iff the object is an element |
| ArraySets.ArraySet.Add | src/main/java/eu/simuline/util/ArraySet.java:325-334 | keeps the list sorted, adds the element, returns whether it was new, grows by one exactly then |
| ArraySets.ArraySet.Remove | src/main/java/eu/simuline/util/ArraySet.java:350-352 | returns whether the element was present; removes just its position, the rest keep their order |
| ArraySets.ArraySet.AddAll | src/main/java/eu/simuline/util/ArraySet.java:455-471 | corrected: the set becomes the union and the result is `true` iff it changed; as written, the path for a collection sorted the same way returns `addList`'s flag, `AsWrittenFlag`, which can be `false` after a change (see Findings) |
| ArraySets.ArraySet.ContainsAll | src/main/java/eu/simuline/util/ArraySet.java:371-405 | true iff every element of the collection is contained, on both paths |
| ArraySets.ArraySet.ContainsAllSorted | src/main/java/eu/simuline/util/ArraySet.java:372-395 | the path for a collection sorted the same way: true iff every element is contained |
| ArraySets.ArraySet.ContainsAllUnsorted | src/main/java/eu/simuline/util/ArraySet.java:396-403 | the element-by-element path: true iff every element is contained |
| ArraySets.ArraySet.First | src/main/java/eu/simuline/util/ArraySet.java:700-706 | throws `NoSuchElementException` iff empty, otherwise the least element |
| ArraySets.ArraySet.Last | src/main/java/eu/simuline/util/ArraySet.java:708-714 | throws `NoSuchElementException` iff empty, otherwise the greatest element |
| ArraySets.ArraySet.HeadSet | src/main/java/eu/simuline/util/ArraySet.java:679-687 | a fresh sorted set holding `HeadList` |
| ArraySets.ArraySet.TailSet | src/main/java/eu/simuline/util/ArraySet.java:689-698 | a fresh sorted set holding `TailList` |
| ArraySets.ArraySet.SubSet | src/main/java/eu/simuline/util/ArraySet.java:663-677 | a fresh sorted set holding `SubList`, or its exception |
| ArraySets.ArraySet.Equals | src/main/java/eu/simuline/util/ArraySet.java:735-747 | true iff the other object is a set with the same elements; for a set sorted the same way, iff the lists are equal |
| ArraySets.ArraySet.Clear | src/main/java/eu/simuline/util/ArraySet.java:651-653 | the set becomes empty |
| ArraySets.ArraySet.AddList | src/main/java/eu/simuline/util/ArraySet.java:490-601 | corrected: the window becomes the sorted union of itself and `list2`, the rest of the list is untouched, and the flag is true iff `list2` had an element not in the window; the flag as written is `AsWrittenFlag` |
| ArraySets.ArraySet.AddListSingle | src/main/java/eu/simuline/util/ArraySet.java:495-505 | one-element `list2`: inserted at its insertion point unless present; the flag tells which |
| ArraySets.ArraySet.CommonRun | src/main/java/eu/simuline/util/ArraySet.java:515-524 | the `do`-`while` loop stops after the common run |
| ArraySets.ArraySet.AddListFound | src/main/java/eu/simuline/util/ArraySet.java:513-536 | corrected: the found branch yields the sorted union, and the flag is true iff `list2` added an element; the flag as written is `AsWrittenFlagFound` |
| ArraySets.ArraySet.AddListFoundAtEnd | src/main/java/eu/simuline/util/ArraySet.java:525-528 | corrected: the run reached the end of the window; sorted union, and the flag also counts the appended elements |
| ArraySets.ArraySet.AddListFoundInside | src/main/java/eu/simuline/util/ArraySet.java:529-535 | the run ends inside the window; sorted union, flag from both halves |
| ArraySets.ArraySet.AddListMissing | src/main/java/eu/simuline/util/ArraySet.java:552-600 | the middle element is missing from the window: sorted union, and the flag is `true` |
| ArraySets.ArraySet.AddListBefore | src/main/java/eu/simuline/util/ArraySet.java:554-578 | the middle element belongs before an element of the window: sorted union |
| JavaPaths.Replace | src/main/java/eu/simuline/util/JavaPath.java:374 | `String.replace(a, b)` changes exactly the occurrences of `a` |
| JavaPaths.ReplaceBack | src/main/java/eu/simuline/util/JavaPath.java:374-542 | replacing `a` by an absent `b` and back is the identity |
| JavaPaths.ReplaceCutAt | src/main/java/eu/simuline/util/JavaPath.java:374-376 | replacing characters commutes with cutting at a third one |
| JavaPaths.FirstIndex | src/main/java/eu/simuline/util/JavaPath.java:112 | the first occurrence of a character, or the length when it is absent |
| JavaPaths.FirstIndexSame | src/main/java/eu/simuline/util/JavaPath.java:374-376 | strings with the character at the same places have the same first occurrence |
| JavaPaths.CutAt | src/main/java/eu/simuline/util/JavaPath.java:112 | the prefix before the first occurrence, without that character |
| JavaPaths.SkipLine | src/main/java/eu/simuline/util/JavaPath.java:112 | what `.*` leaves behind: a suffix, empty when there is no line terminator |
| JavaPaths.DropInner | src/main/java/eu/simuline/util/JavaPath.java:112 | `replaceAll("\\$.*", "")` leaves no `$` |
| JavaPaths.DropInnerCuts | src/main/java/eu/simuline/util/JavaPath.java:111-113 | on a name without line terminators it cuts at the first `$` |
| JavaPaths.ClsSrc.FileEnding | src/main/java/eu/simuline/util/JavaPath.java:98-122 | `.class` or `.java`: a dot and a dot-free rest |
| JavaPaths.ClsSrc.TrimInnerClass | src/main/java/eu/simuline/util/JavaPath.java:98-140 | the identity for class files; leaves no `$` for source files |
| JavaPaths.Cls2LocFile | src/main/java/eu/simuline/util/JavaPath.java:362-381 | the file name ends with the ending of its kind |
| JavaPaths.LocFile2Cls | src/main/java/eu/simuline/util/JavaPath.java:533-544 | throws `IllegalArgumentException` iff the ending is missing; otherwise strips it and leaves no file separator |
| JavaPaths.ClassRoundTrip | src/main/java/eu/simuline/util/JavaPath.java:362-544 | `locFile2cls(cls2locFile(c, Class), Class) == c` for a name without file separator |
| JavaPaths.SourceRoundTrip | src/main/java/eu/simuline/util/JavaPath.java:362-544 | the same for `Source` gives the name cut at its first `$` |
| JavaPaths.LocFileRoundTrip | src/main/java/eu/simuline/util/JavaPath.java:362-544 | `cls2locFile(locFile2cls(f, Class), Class) == f` for a class file name without dots before the ending |
| JavaPaths.RootPrefix | src/main/java/eu/simuline/util/JavaPath.java:523-525 | corrected: what a file below a root starts with, the root's path and a separator, unless the path already ends in one as the file-system root does |
| JavaPaths.FirstBelow | src/main/java/eu/simuline/util/JavaPath.java:521-528 | corrected loop over the roots: the first root from `k` on that the file lies below, no root before it matching, or past the end when there is none |
| JavaPaths.LocFileName | src/main/java/eu/simuline/util/JavaPath.java:519-531 | corrected: `null` iff no root's `RootPrefix` starts the path, otherwise the rest after the first such root |
| JavaPaths.LocFileNameAsWritten | src/main/java/eu/simuline/util/JavaPath.java:519-531 | as written: string prefix match, and the only exception is `StringIndexOutOfBoundsException` |
| JavaPaths.AsWrittenMatchesSibling | src/main/java/eu/simuline/util/JavaPath.java:523-525 | as written, root `/a` matches `/ab/c` and yields `/c`; corrected, no root matches |
| JavaPaths.AsWrittenFailsOnRoot | src/main/java/eu/simuline/util/JavaPath.java:523-525 | as written, the root `/a` itself throws; corrected, it yields `null` |
| JavaPaths.AsWrittenCutsBelowFileSystemRoot | src/main/java/eu/simuline/util/JavaPath.java:523-525 | as written, below the root `/` the file `/x/y` is reported as `/y`; corrected, as `x/y` |
| JavaPaths.JavaPath.constructor | src/main/java/eu/simuline/util/JavaPath.java:321-339 | one root per field, in order, empty fields included |
| JavaPaths.JavaPath.Create | src/main/java/eu/simuline/util/JavaPath.java:313-340 | throws `IllegalArgumentException` iff splitting yields no field, otherwise one root per field |
| JavaPaths.JavaPath.GetLocFileName | src/main/java/eu/simuline/util/JavaPath.java:519-531 | corrected: the loop over the roots computes `LocFileName`, matching a root only when the file lies below it; as written, the match is by string prefix, `LocFileNameAsWritten` |
| JavaPaths.JavaPath.AbsFile2Cls | src/main/java/eu/simuline/util/JavaPath.java:546-554 | corrected: `null` iff the corrected `getLocFileName` is, otherwise `locFile2cls` of its result, which throws `IllegalArgumentException` iff the ending is missing |
| Benchmarking.Elapsed | src/main/java/eu/simuline/util/Benchmarker.java:78-83 | a `long` difference: exact when it fits, otherwise congruent modulo 2^64 |
| Benchmarking.ElapsedRecoversEnd | src/main/java/eu/simuline/util/Benchmarker.java:78-83 | start plus elapsed gives back the end reading in `long` arithmetic |
| Benchmarking.Snapshot.constructor | src/main/java/eu/simuline/util/Benchmarker.java:68-72 | holds the readings taken now and is not stopped |
| Benchmarking.Snapshot.Stop | src/main/java/eu/simuline/util/Benchmarker.java:78-83 | only when not stopped; afterwards stopped and holding the differences to the readings now |
| Benchmarking.Snapshot.GetTimeMs | src/main/java/eu/simuline/util/Benchmarker.java:85-88 | only when stopped; the elapsed time in milliseconds |
| Benchmarking.Snapshot.GetMemoryMB | src/main/java/eu/simuline/util/Benchmarker.java:90-93 | only when stopped; the allocated memory in megabytes |
| Benchmarking.Benchmarker.constructor | src/main/java/eu/simuline/util/Benchmarker.java:116-120 | initially not started and without a snapshot |
| Benchmarking.Benchmarker.Mtic | src/main/java/eu/simuline/util/Benchmarker.java:138-144 | only when not started; afterwards started with a fresh running snapshot of the readings |
| Benchmarking.Benchmarker.Mtoc | src/main/java/eu/simuline/util/Benchmarker.java:146-155 | only when started; afterwards not started without a snapshot, returning the stopped snapshot |
| Benchmarking.Benchmarker.IsStarted | src/main/java/eu/simuline/util/Benchmarker.java:157-159 | true iff a snapshot is held |
| Benchmarking.TicToc | src/main/java/eu/simuline/util/Benchmarker.java:138-159 | `mtic` then `mtoc` returns to not started and yields the elapsed time and memory |
| StringUtils.Blanks | src/main/java/eu/simuline/util/Strings.java:39-52 | `num` characters, all blanks |
| StringUtils.Grown | src/main/java/eu/simuline/util/Strings.java:46-48 | the buffer grows to at least `num`, keeps its content, stays all blanks, and then starts with `num` blanks |
| StringUtils.StringBuilder.constructor | src/main/java/eu/simuline/util/Strings.java:42 | a new buffer is empty |
| StringUtils.StringBuilder.Append | src/main/java/eu/simuline/util/Strings.java:47 | appends one character |
| StringUtils.Strings.constructor | src/main/java/eu/simuline/util/Strings.java:19-20 | the buffer starts empty |
| StringUtils.Strings.GetBlanks | src/main/java/eu/simuline/util/Strings.java:39-52 | negative `num` throws `StringIndexOutOfBoundsException`, otherwise exactly `num` blanks; a cleared buffer is replaced by a fresh one; the buffer grows to `Grown` and stays all blanks |

## Left out

- Iteration over `HashMap`/`TreeMap` entries: the multiset's maps are unordered, so `getMaxObjWithMult` is proved to return some element of maximal multiplicity, not the one the Java map's order would pick.
- `AbstractMultiSet.containsAll`, `retainAll`, the one-argument `addWithMult`/`removeWithMult`, the iterator, `getSetWithMults`/`getSet` views, `equals`, `hashCode`, `toArray`: views and iteration need an ordered map; the one-argument forms just delegate.
- `ArraySet` comparators: the elements are `int`s in natural order; `sortedAsAdded`, `asListed` and the `ClassCastException` fallback are not modelled.
- `ArraySets.ArraySet.AddAll`: `list2` is a value, so `addAll(this)` aliasing is not modelled.
- `CyclicLists.CyclicArrayList.AddAll`: the added list is a value. In Java `addAll(index, this)` replaces the backing list before it reads `addList.size()` (CyclicArrayList.java:1285-1292), so it does not insert a copy of the list; that aliasing is not modelled.
- `MultiSets.MultiSet.AddAll`: on an overflow the contract leaves open which elements were visited before it; that depends on the Java map's order.
- `MultiSets.MultiSet.AddAllSet`: the same, for the set's order.
- `MultiSets.MultiSet.AddAllFrom`: the same, for the order `:|` picks.
- `ArraySets.ArraySet.AddListBefore`: it states the union only. Its flag is always `true`, which `AddList` states.
- `ArraySets.AsWrittenFlag`: the flag as written is shown wrong on one input, and a `true` flag is proved right. That `false` is right whenever the common run stays inside the window is not proved.
- `ArraySet.headSet`/`tailSet`/`subSet` with an absent bound follow the code (all, nothing or the tail), not the `SortedSet` contract; the views are copies, not live views.
- `ArraySet.retainAll`, `removeAll`, `iterator`, `toArray`, `toString`, `hashCode`, `ensureCapacity`: not part of the sorted-set core.
- `CyclicArrayList` index overflow: indices are unbounded integers; Java `int` overflow in `index + k` is not modelled.
- `CyclicArrayIterator.addAll(List)`, `getNextIndexOf`, `setIndex`, `refresh`, `getFirstIndex`, `dist`, `equals`, `toString`: not in the modelled core.
- `CyclicArrayList.replace`, `addAll(int, CyclicIterator)`, `toArray`, `asList`, `iterator`, `hashCode`, `toString`, `clone`: not in the modelled core.
- `CyclicArrayList.addAll(Collection)`, `remove(Object)`, `removeAll`, `retainAll`: they only throw `UnsupportedOperationException`.
- `CyclicLists.CyclicArrayIterator.Add`: when the cursor is past the last position, the reduction modulo `size + 1` puts the element one place early. The contract states what the code does and does not call this out.
- `CyclicLists.CyclicArrayIterator.Remove`: after `next` returns the first visited element, the start index is moved back, so the last element is skipped by the rest of the iteration. The contract states the new state as the code leaves it.
- Debug output (`println` in `cycle`, `addAll`, the `JavaPath` constructor and `absFile2cls`): output only.
- `JavaPath` file and zip access (`getFile`, `getInputStream`, `locFile2Wrapper`, the file wrappers, `main`): file-system I/O.
- `JavaPath` separators: `FILE_SEP` is a parameter; the `PATH_SEP` split with its regular expression and dropped trailing empty fields is a function parameter.
- `java.io.File` path normalisation: roots and files are their path strings as given. The corrected match takes a root path that ends in the separator (the file-system root `/`) as its own prefix.
- `null`: no element, object or file is `null`, so the model has no `NullPointerException`. This leaves out `contains(null)` on a `CyclicArrayList` (CyclicArrayList.java:830-837). It leaves out `getMultiplicity`, `contains`, `add`, `addWithMult` and `removeWithMult` with `null` on a multiset (AbstractMultiSet.java:521-572, 697-860), and the explicit throws at AbstractMultiSet.java:548-549 and 901-902. It leaves out the `IllegalArgumentException` of `setMultiplicity(null, m)` (AbstractMultiSet.java:927). The `null` branch of `retEquals` (CyclicArrayList.java:657-668) is `equals` on non-null elements. `JavaLang.Exception` has no `NullPointerException` case.
- `ClsSrc.Source.trimInnerClass`: `replaceAll` with `.*` stops at a line terminator. This is modelled, but the round trip is proved only for names without line terminators.
- `Benchmarker`: `System.nanoTime`, `Runtime.gc` and the memory readings are parameters; `double` division is exact `real` division; `toString` and `String.format` are not modelled; Java `assert`s are preconditions.
- `Strings.getBlanks`: whether the garbage collector cleared the weak reference is a parameter.
- `SortedMultiSet`: an interface without code.

## Findings

| source | as written | input that shows it | evidently intended | confidence | as-written member | corrected member |
|---|---|---|---|---|---|---|
| src/main/java/eu/simuline/util/ArraySet.java:525-528 | when the common run reaches the end of `list1`, the rest of `list2` is appended but only the lower recursion's flag is returned | `list1 = [0, 1]`, `list2 = [0, 1, 2]`: `list1` becomes `[0, 1, 2]`, result `false`, so `addAll` reports no change | also return `true` when something was appended | not executed | ArraySets.AddListFlagMissesAppend | ArraySets.ArraySet.AddListFoundAtEnd |
| src/main/java/eu/simuline/util/CyclicArrayList.java:585-592 | `remove()` after `next()` reduces `startIndex` modulo the new size, which is 0 once the only element is gone | a one-element list, `next()` then `remove()`: the element is removed, then `ArithmeticException` | skip the reduction on an empty list; iteration is then over | not executed | CyclicLists.RemoveEmptiesThenFails | CyclicLists.CyclicArrayIterator.RemoveGuarded |
| src/main/java/eu/simuline/util/CyclicArrayList.java:839-847 | `containsAll` returns `true` as soon as one element of the collection is contained, `false` for an empty collection | list `[0]`, collection `[0, 1]`: `true` | `true` iff every element is contained | not executed | CyclicLists.ContainsAllCounterexample | CyclicLists.CyclicArrayList.ContainsEveryElement |
| src/main/java/eu/simuline/util/JavaPath.java:523-525 | a root matches when its path is a string prefix of the file's path | root `/a`, file `/ab/c`: `c` is reported as `/c` inside `/a` | match only a root followed by a file separator | not executed | JavaPaths.AsWrittenMatchesSibling | JavaPaths.JavaPath.GetLocFileName |
| src/main/java/eu/simuline/util/JavaPath.java:524-525 | one character after the root's path is skipped as if it were a separator | root `/`, file `/x/y`: reported as `/y` | skip a separator only where the root's path does not end in one: `x/y` | not executed | JavaPaths.AsWrittenCutsBelowFileSystemRoot | JavaPaths.JavaPath.GetLocFileName |
| src/main/java/eu/simuline/util/JavaPath.java:524-525 | a file whose path equals a root's path makes `substring(len + 1, len)` throw | root `/a`, file `/a`: `StringIndexOutOfBoundsException` | not found, `null` | not executed | JavaPaths.AsWrittenFailsOnRoot | JavaPaths.JavaPath.GetLocFileName |
