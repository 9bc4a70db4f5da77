/** Bytes and machine words. */
module Bytes {
  const TWO_64: nat := 0x1_0000_0000_0000_0000

  type Byte = bv8
  type Word32 = bv32

  function Zeros(n: nat): (s: seq<Byte>)
    ensures |s| == n
  {
    seq(n, _ => 0)
  }

  /** A std::string is a string of characters below 256. */
  predicate IsBytes(s: string) {
    forall i :: 0 <= i < |s| ==> s[i] as int < 256
  }
}
