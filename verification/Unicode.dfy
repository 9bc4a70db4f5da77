/** Unicode scalar values: code points that are no surrogates. */
module Unicode {
  predicate Scalar(c: int) {
    0 <= c < 0xD800 || 0xE000 <= c < 0x11_0000
  }
}
