/** `MutableInt`: a counter for hash-map values, starting at 1. */
module MutableInts {
  import opened Wrappers
  import opened JavaLang

  class MutableInt {
    /** The stored count, a Java `int`. */
    var value: int
    /** How many times `increment` has run. */
    ghost var increments: nat

    ghost predicate Valid()
      reads this
    {
      value == Wrap32(1 + increments)
    }

    /** A new counter holds 1. */
    constructor()
      ensures Valid() && increments == 0 && value == 1
    {
      value := 1;
      increments := 0;
    }

    /** `increment`: `++value`, which wraps at `Integer.MAX_VALUE`. */
    method Increment()
      requires Valid()
      modifies this
      ensures Valid() && increments == old(increments) + 1
      ensures value == Wrap32(old(value) + 1)
    {
      WrapCongruent(Wrap32(1 + increments) + 1, 1 + increments + 1);
      value := Wrap32(value + 1);
      increments := increments + 1;
    }

    /** `get`: after k increments the counter reads 1 + k, as long as that
        fits in an `int`. */
    method Get() returns (v: int)
      requires Valid()
      ensures v == Wrap32(1 + increments)
      ensures 1 + increments <= IntMax ==> v == 1 + increments
    {
      v := value;
    }

    /** `toString`: the decimal form of the value, which reads back as the
        value. */
    method ToString() returns (s: string)
      requires Valid()
      ensures s == IntToString(Wrap32(1 + increments))
      ensures ParseInt(s) == Some(value)
    {
      s := IntToString(value);
      ParseIntOfIntToString(value);
    }
  }
}
