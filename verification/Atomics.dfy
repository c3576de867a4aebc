/** The atomic steps of the kernel's library on a 32-bit cell. Each is indivisible
    and the counting ones return the value before. */
module Atomics {

  /** A 32-bit signed word: addition and subtraction wrap around. */
  function Wrap(v: int): (w: int)
    ensures -0x8000_0000 <= w < 0x8000_0000 && (w - v) % 0x1_0000_0000 == 0
    ensures -0x8000_0000 <= v < 0x8000_0000 ==> w == v
  {
    (v + 0x8000_0000) % 0x1_0000_0000 - 0x8000_0000
  }

  /** Counting on from a wrapped value. */
  lemma WrapAdd(v: int, k: int)
    ensures Wrap(Wrap(v) + k) == Wrap(v + k)
  {
    var q := (Wrap(v) - v) / 0x1_0000_0000;
    assert Wrap(v) + k + 0x8000_0000 == v + k + 0x8000_0000 + q * 0x1_0000_0000;
  }

  class Atomic {
    var value: int

    constructor (v: int)
      ensures value == v
    {
      value := v;
    }

    method CompareAndSwap(expected: int, desired: int) returns (swapped: bool)
      modifies this
      ensures swapped <==> old(value) == expected
      ensures value == if swapped then desired else old(value)
    {
      swapped := value == expected;
      if swapped {
        value := desired;
      }
    }

    /** The exchange and both counting steps return the value before. */
    method Set(v: int) returns (before: int)
      modifies this
      ensures before == old(value) && value == v
    {
      before := value;
      value := v;
    }

    method Inc() returns (before: int)
      modifies this
      ensures before == old(value) && value == Wrap(before + 1)
    {
      before := value;
      value := Wrap(value + 1);
    }

    method Dec() returns (before: int)
      modifies this
      ensures before == old(value) && value == Wrap(before - 1)
    {
      before := value;
      value := Wrap(value - 1);
    }
  }
}
