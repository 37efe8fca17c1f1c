/** Optional values, as returned by lookups that may find nothing. */
module Wrappers {
  datatype Option<+T> = None | Some(value: T)
}

/** The sizes of finite sets. */
module Sets {
  lemma SubsetSize<T>(a: set<T>, b: set<T>)
    requires a <= b
    ensures |a| <= |b|
  {
    if a != {} {
      var x :| x in a;
      SubsetSize(a - {x}, b - {x});
    }
  }
}

/** Bytes, and the machine operations on them that the program uses. */
module Bytes {
  type byte = b: int | 0 <= b < 256

  const TWO_32: int := 0x1_0000_0000

  /** Bitwise exclusive or of two non-negative numbers. */
  function Xor(a: nat, b: nat): nat {
    if a == 0 && b == 0 then 0 else 2 * Xor(a / 2, b / 2) + (a + b) % 2
  }
}
