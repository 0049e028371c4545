/**
 * `Benchmarker`: a stop watch for time and memory with a two-state
 * discipline, `mtic` to start and `mtoc` to stop.  A `Snapshot` first holds
 * the readings at the start and, once stopped, the differences to the
 * readings at the end.
 *
 * The clock (`System.nanoTime()`) and the used memory (maximal minus free
 * memory after a garbage collection) are readings from the platform; they
 * are passed in as parameters.  The static fields of `Benchmarker` are the
 * fields of one object of the class below.
 */
module Benchmarking {
  import opened JavaLang

  /** `end - start` in Java `long` arithmetic, wrapping around. */
  function Elapsed(start: int, end: int): (d: int)
    ensures IsLong(d)
    ensures IsLong(end - start) ==> d == end - start
    ensures (d - (end - start)) % 0x1_0000_0000_0000_0000 == 0
  {
    WrapLong(end - start)
  }

  /**
   * Whatever the wrap-around did, adding the elapsed amount to the start
   * reading gives back the end reading in `long` arithmetic.
   */
  lemma ElapsedRecoversEnd(start: int, end: int)
    requires IsLong(start) && IsLong(end)
    ensures WrapLong(start + Elapsed(start, end)) == end
  {
    var m := 0x1_0000_0000_0000_0000;
    var d := Elapsed(start, end);
    var q := (d - (end - start)) / m;
    assert d - (end - start) == q * m;
    assert start + d - LONG_MIN == (end - LONG_MIN) + q * m;
    ModAddMultiple(end - LONG_MIN, q, m);
    DivModUnique(end - LONG_MIN, m, 0, end - LONG_MIN);
  }

  /** The time and memory readings of one measurement. */
  class Snapshot {
    /** The start time in ns; once stopped, the time elapsed. */
    var timeTicNs: int
    /** The used memory in bytes at the start; once stopped, the memory allocated since. */
    var memBytes: int
    var isStopped: bool

    ghost predicate Valid()
      reads this
    {
      IsLong(timeTicNs) && IsLong(memBytes)
    }

    /** `new Snapshot()`: the readings taken now. */
    constructor (nanoTime: int, usedMemoryBytes: int)
      requires IsLong(nanoTime) && IsLong(usedMemoryBytes)
      ensures Valid() && !isStopped
      ensures timeTicNs == nanoTime && memBytes == usedMemoryBytes
    {
      timeTicNs := nanoTime;
      memBytes := usedMemoryBytes;
      isStopped := false;
    }

    /**
     * `stop()`: a running snapshot turns into the differences between the
     * readings now and those at the start; freed memory makes the memory
     * difference negative.
     */
    method Stop(nanoTime: int, usedMemoryBytes: int)
      requires Valid() && !isStopped
      requires IsLong(nanoTime) && IsLong(usedMemoryBytes)
      modifies this
      ensures Valid() && isStopped
      ensures timeTicNs == Elapsed(old(timeTicNs), nanoTime)
      ensures memBytes == Elapsed(old(memBytes), usedMemoryBytes)
    {
      timeTicNs := WrapLong(nanoTime - timeTicNs);
      memBytes := WrapLong(usedMemoryBytes - memBytes);
      isStopped := true;
    }

    /** `getTimeMs()`: the elapsed time in milliseconds, for a stopped snapshot. */
    function GetTimeMs(): (ms: real)
      reads this
      requires isStopped
      ensures ms * 1_000_000.0 == timeTicNs as real
    {
      timeTicNs as real / 1_000_000.0
    }

    /** `getMemoryMB()`: the allocated memory in megabytes, for a stopped snapshot. */
    function GetMemoryMB(): (mb: real)
      reads this
      requires isStopped
      ensures mb * 1_000_000.0 == memBytes as real
    {
      memBytes as real / 1_000_000.0
    }
  }

  /** The static state of `Benchmarker`. */
  class Benchmarker {
    var isStarted: bool
    var snapshot: Snapshot?

    /** Started exactly when a running snapshot is held. */
    ghost predicate Valid()
      reads this, snapshot
    {
      isStarted == (snapshot != null) &&
      (snapshot != null ==> snapshot.Valid() && !snapshot.isStopped)
    }

    /** The state when the class is loaded: not started. */
    constructor ()
      ensures Valid() && !isStarted && snapshot == null
    {
      isStarted := false;
      snapshot := null;
    }

    /** `mtic()`: only when not started; starts with a fresh snapshot. */
    method Mtic(nanoTime: int, usedMemoryBytes: int)
      requires Valid() && !isStarted
      requires IsLong(nanoTime) && IsLong(usedMemoryBytes)
      modifies this
      ensures Valid() && isStarted
      ensures snapshot != null && fresh(snapshot)
      ensures snapshot.timeTicNs == nanoTime && snapshot.memBytes == usedMemoryBytes
    {
      isStarted := !isStarted;
      snapshot := new Snapshot(nanoTime, usedMemoryBytes);
    }

    /**
     * `mtoc()`: only when started; stops the snapshot, lets go of it and
     * returns it.
     */
    method Mtoc(nanoTime: int, usedMemoryBytes: int) returns (res: Snapshot)
      requires Valid() && isStarted
      requires IsLong(nanoTime) && IsLong(usedMemoryBytes)
      modifies this, snapshot
      ensures Valid() && !isStarted && snapshot == null
      ensures res == old(snapshot) && res.Valid() && res.isStopped
      ensures res.timeTicNs == Elapsed(old(snapshot.timeTicNs), nanoTime)
      ensures res.memBytes == Elapsed(old(snapshot.memBytes), usedMemoryBytes)
    {
      isStarted := !isStarted;
      snapshot.Stop(nanoTime, usedMemoryBytes);
      res := snapshot;
      snapshot := null;
    }

    function IsStarted(): (b: bool)
      reads this, snapshot
      requires Valid()
      ensures b <==> snapshot != null
    {
      isStarted
    }
  }

  /**
   * `mtic()` followed by `mtoc()` leaves the class not started, as it was,
   * and hands back the time and memory elapsed between the two calls.
   */
  method TicToc(b: Benchmarker, t0: int, m0: int, t1: int, m1: int) returns (res: Snapshot)
    requires b.Valid() && !b.IsStarted()
    requires IsLong(t0) && IsLong(m0) && IsLong(t1) && IsLong(m1)
    modifies b
    ensures b.Valid() && !b.IsStarted()
    ensures res.isStopped && fresh(res)
    ensures res.timeTicNs == Elapsed(t0, t1) && res.memBytes == Elapsed(m0, m1)
  {
    b.Mtic(t0, m0);
    res := b.Mtoc(t1, m1);
  }
}
