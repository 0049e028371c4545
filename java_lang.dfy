/**
 * What the utility classes borrow from the Java platform: the exceptions they
 * throw (as values), a result type standing for "returns normally or throws",
 * and Java's fixed-width integer arithmetic, which wraps around, and its
 * remainder operator, which truncates toward zero.
 */
module JavaLang {

  /** The unchecked exceptions the modelled classes throw. */
  datatype Exception =
    | IllegalArgument
    | IllegalState
    | NoSuchElement
    | EmptyCyclicList
    | StringIndexOutOfBounds
    | Arithmetic

  /** Either the value a Java method returns or the exception it throws. */
  datatype Result<+T> = Ok(value: T) | Throw(exception: Exception) {
    predicate IsFailure() { Throw? }
    function PropagateFailure<U>(): Result<U> requires Throw? { Throw(exception) }
    function Extract(): T requires Ok? { value }
  }

  /** A reference that may be `null`. */
  datatype Option<+T> = None | Some(value: T)

  const INT_MIN: int := -0x8000_0000
  const INT_MAX: int := 0x7fff_ffff
  const LONG_MIN: int := -0x8000_0000_0000_0000
  const LONG_MAX: int := 0x7fff_ffff_ffff_ffff

  predicate IsInt(x: int) { INT_MIN <= x <= INT_MAX }
  predicate IsLong(x: int) { LONG_MIN <= x <= LONG_MAX }

  /** Java `int` arithmetic: the mathematical value reduced into 32 bits. */
  function WrapInt(x: int): (r: int)
    ensures IsInt(r)
    ensures (r - x) % 0x1_0000_0000 == 0
    ensures IsInt(x) ==> r == x
  {
    (x - INT_MIN) % 0x1_0000_0000 + INT_MIN
  }

  /** Java `long` arithmetic: the mathematical value reduced into 64 bits. */
  function WrapLong(x: int): (r: int)
    ensures IsLong(r)
    ensures (r - x) % 0x1_0000_0000_0000_0000 == 0
    ensures IsLong(x) ==> r == x
  {
    (x - LONG_MIN) % 0x1_0000_0000_0000_0000 + LONG_MIN
  }

  /** Java's `a / b` for `b > 0`: the quotient truncated toward zero. */
  function JavaDiv(a: int, b: int): int
    requires b > 0
  {
    if a >= 0 then a / b else -((-a) / b)
  }

  /**
   * Java's `a % b` for `b > 0`: the remainder of the division that truncates
   * toward zero, so it carries the sign of `a`.
   */
  function JavaRem(a: int, b: int): (r: int)
    requires b > 0
    ensures a >= 0 ==> 0 <= r < b
    ensures a < 0 ==> -b < r <= 0
    ensures a == JavaDiv(a, b) * b + r
  {
    if a >= 0 then a % b else -((-a) % b)
  }

  /** Euclidean division is determined by any quotient/remainder pair. */
  lemma DivModUnique(a: int, n: int, q: int, r: int)
    requires n > 0 && 0 <= r < n && a == q * n + r
    ensures a / n == q && a % n == r
  {
    var q0, r0 := a / n, a % n;
    assert q0 * n + r0 == q * n + r;
    if q0 > q {
      assert q0 * n == q * n + (q0 - q) * n;
      MulAtLeast(q0 - q, n);
    } else if q0 < q {
      assert q * n == q0 * n + (q - q0) * n;
      MulAtLeast(q - q0, n);
    }
  }

  lemma MulAtLeast(d: int, n: int)
    requires d >= 1 && n > 0
    ensures d * n >= n
  {
  }

  /** Adding a multiple of `n` does not change the remainder modulo `n`. */
  lemma ModAddMultiple(a: int, k: int, n: int)
    requires n > 0
    ensures (a + k * n) % n == a % n
  {
    assert a + k * n == (a / n + k) * n + a % n;
    DivModUnique(a + k * n, n, a / n + k, a % n);
  }

  /** Moving `d <= n` steps on from `a` wraps around modulo `n` at most once. */
  lemma ModStep(a: int, d: int, n: int)
    requires n > 0 && 0 <= d <= n
    ensures (a + d) % n == if a % n + d < n then a % n + d else a % n + d - n
  {
    var q := a / n;
    if a % n + d < n {
      DivModUnique(a + d, n, q, a % n + d);
    } else {
      assert (q + 1) * n == q * n + n;
      DivModUnique(a + d, n, q + 1, a % n + d - n);
    }
  }

  /** Remainders add up modulo `n`. */
  lemma ModAdd(a: int, b: int, n: int)
    requires n > 0
    ensures (a % n + b % n) % n == (a + b) % n
  {
    var qa, qb := a / n, b / n;
    MulAddLeft(qa, qb, n);
    assert a % n + b % n + (qa + qb) * n == a + b;
    ModAddMultiple(a % n + b % n, qa + qb, n);
  }

  lemma MulAddLeft(p: int, q: int, n: int)
    ensures (p + q) * n == p * n + q * n
  {
  }
}
