/**
 * `Strings.getBlanks`: strings of blanks cut from one shared, ever growing
 * buffer of blanks.  The buffer is held through a weak reference, so the
 * garbage collector may drop it between calls; whether it did is a
 * parameter.
 */
module StringUtils {
  import opened JavaLang

  predicate AllBlanks(s: string)
  {
    forall i | 0 <= i < |s| :: s[i] == ' '
  }

  /** The string of `n` blanks. */
  function Blanks(n: nat): (r: string)
    ensures |r| == n && AllBlanks(r)
  {
    seq(n, _ => ' ')
  }

  /**
   * The buffer after `getBlanks(num)`: blanks are appended one by one
   * until it holds at least `num` characters.  A buffer of blanks, however
   * long, then starts with exactly `num` blanks, so what `getBlanks` returns
   * does not depend on the buffer that was there, nor on whether it had been
   * dropped.
   */
  function Grown(buffer: string, num: int): (r: string)
    ensures |r| == if |buffer| < num then num else |buffer|
    ensures r[..|buffer|] == buffer
    ensures AllBlanks(buffer) ==> AllBlanks(r)
    ensures AllBlanks(buffer) && num >= 0 ==> r[..num] == Blanks(num)
    decreases num - |buffer|
  {
    if |buffer| < num then Grown(buffer + [' '], num) else buffer
  }

  /** A `StringBuilder`: a character sequence that grows in place. */
  class StringBuilder {
    var chars: string

    constructor ()
      ensures chars == []
    {
      chars := [];
    }

    method Append(c: char)
      modifies this
      ensures chars == old(chars) + [c]
    {
      chars := chars + [c];
    }
  }

  /** The static state of `Strings`: the buffer its weak reference holds. */
  class Strings {
    var blanks: StringBuilder

    /** The buffer holds nothing but blanks. */
    ghost predicate Valid()
      reads this, blanks
    {
      AllBlanks(blanks.chars)
    }

    /** The state when the class is loaded: an empty buffer. */
    constructor ()
      ensures Valid() && fresh(blanks) && blanks.chars == []
    {
      blanks := new StringBuilder();
    }

    /**
     * `getBlanks(num)`: `num` blanks, cut from the buffer after it has been
     * grown to at least `num`; a negative `num` makes the final `substring`
     * throw.  When the buffer has been dropped (`cleared`), a fresh empty
     * one is installed first.
     */
    method GetBlanks(num: int, cleared: bool) returns (r: Result<string>)
      requires Valid()
      modifies this, blanks
      ensures Valid()
      ensures num < 0 ==> r == Throw(StringIndexOutOfBounds)
      ensures num >= 0 ==> r == Ok(Blanks(num))
      ensures cleared ==> fresh(blanks) && blanks.chars == Grown([], num)
      ensures !cleared ==> blanks == old(blanks) && blanks.chars == Grown(old(blanks.chars), num)
    {
      var b := blanks;
      if cleared {
        b := new StringBuilder();
        blanks := b;
      }
      ghost var start := b.chars;
      while |b.chars| < num
        invariant blanks == b && AllBlanks(b.chars)
        invariant Grown(b.chars, num) == Grown(start, num)
        decreases num - |b.chars|
      {
        b.Append(' ');
      }
      if num < 0 {
        return Throw(StringIndexOutOfBounds);
      }
      return Ok(b.chars[..num]);
    }
  }
}
