/**
 The four message digests as the standards define them: pad the message, cut it into
 blocks, and fold the block function over them. FIPS 180-4 section 5.1 for SHA-1,
 SHA-256 and SHA-512, RFC 1321 sections 3.1 and 3.2 for MD5. The block function is a
 parameter.
 */
module DigestSpec {
  import opened Arithmetic
  import opened Bytes

  const TWO_128: nat := 0x1_0000_0000_0000_0000_0000_0000_0000_0000

  type State = seq<nat>

  /** A digest: block and length-field sizes in bytes, byte order, and the block function. */
  datatype Algorithm = Algorithm(
    block: nat,
    lengthBytes: nat,
    littleEndian: bool,
    words: nat,
    wordBytes: nat,
    init: State,
    process: (State, seq<Byte>) -> State)
  {
    predicate Known() {
      (block == 64 && lengthBytes == 8 && wordBytes == 4)
          || (block == 128 && lengthBytes == 16 && wordBytes == 8 && !littleEndian)
    }

    /** The block function keeps the number of state words. */
    ghost predicate KeepsWidth() {
      |init| == words <= 8 && forall s: State, b: seq<Byte> :: |process(s, b)| == words
    }

    function Step(s: State, b: seq<Byte>): State {
      process(s, b)
    }
  }

  /** The four digests, each with the block function left open. */
  function Md5(process: (State, seq<Byte>) -> State): Algorithm {
    Algorithm(64, 8, true, 4, 4, [0x67452301, 0xefcdab89, 0x98badcfe, 0x10325476], process)
  }

  function Sha1(process: (State, seq<Byte>) -> State): Algorithm {
    Algorithm(64, 8, false, 5, 4, [0x67452301, 0xefcdab89, 0x98badcfe, 0x10325476, 0xc3d2e1f0], process)
  }

  function Sha256(process: (State, seq<Byte>) -> State): Algorithm {
    Algorithm(64, 8, false, 8, 4, [0x6a09e667, 0xbb67ae85, 0x3c6ef372, 0xa54ff53a,
                                   0x510e527f, 0x9b05688c, 0x1f83d9ab, 0x5be0cd19], process)
  }

  function Sha512(process: (State, seq<Byte>) -> State): Algorithm {
    Algorithm(128, 16, false, 8, 8, [0x6a09e667f3bcc908, 0xbb67ae8584caa73b, 0x3c6ef372fe94f82b, 0xa54ff53a5f1d36f1,
                                     0x510e527fade682d1, 0x9b05688c2b3e6c1f, 0x1f83d9abfb41bd6b, 0x5be0cd19137e2179],
              process)
  }

  /** What the streams ask of an algorithm holds of all four; their block functions have to keep the number of words. */
  lemma FourAreKnown(process: (State, seq<Byte>) -> State)
    ensures Md5(process).Known() && Sha1(process).Known() && Sha256(process).Known() && Sha512(process).Known()
    ensures Md5(process).block == Sha1(process).block == Sha256(process).block == 64 && Sha512(process).block == 128
    ensures Md5(process).KeepsWidth() <==> forall s: State, b: seq<Byte> :: |process(s, b)| == 4
    ensures Sha1(process).KeepsWidth() <==> forall s: State, b: seq<Byte> :: |process(s, b)| == 5
    ensures Sha256(process).KeepsWidth() <==> forall s: State, b: seq<Byte> :: |process(s, b)| == 8
    ensures Sha512(process).KeepsWidth() <==> forall s: State, b: seq<Byte> :: |process(s, b)| == 8
  {
  }

  /** The number v shifted right by k bytes. */
  function Shifted(v: nat, k: nat): nat {
    if k == 0 then v else Shifted(v / 256, k - 1)
  }

  function LowByte(v: nat): Byte {
    (v % 256) as bv8
  }

  function ByteAt(v: nat, k: nat): Byte {
    LowByte(Shifted(v, k))
  }

  /** The low k bytes of v, most significant first. */
  function BigEndian(v: nat, k: nat): (b: seq<Byte>)
    ensures |b| == k
  {
    if k == 0 then [] else BigEndian(v / 256, k - 1) + [LowByte(v)]
  }

  /** The low k bytes of v, least significant first. */
  function LittleEndian(v: nat, k: nat): (b: seq<Byte>)
    ensures |b| == k
  {
    if k == 0 then [] else [LowByte(v)] + LittleEndian(v / 256, k - 1)
  }

  function Encoded(alg: Algorithm, v: nat, k: nat): (b: seq<Byte>)
    ensures |b| == k
  {
    if alg.littleEndian then LittleEndian(v, k) else BigEndian(v, k)
  }

  function EncodedWords(alg: Algorithm, s: State): (b: seq<Byte>)
    ensures |b| == alg.wordBytes * |s|
  {
    if |s| == 0 then [] else EncodedWords(alg, s[..|s| - 1]) + Encoded(alg, s[|s| - 1], alg.wordBytes)
  }

  /** Folds the block function over the whole blocks of msg. */
  ghost function Fold(alg: Algorithm, s: State, msg: seq<Byte>): State
    requires alg.block > 0
    decreases |msg|
  {
    if |msg| < alg.block then s else Fold(alg, alg.Step(s, msg[..alg.block]), msg[alg.block..])
  }

  /** What is left of msg after its whole blocks. */
  ghost function Rest(alg: Algorithm, msg: seq<Byte>): (r: seq<Byte>)
    requires alg.block > 0
    ensures |r| < alg.block
    decreases |msg|
  {
    if |msg| < alg.block then msg else Rest(alg, msg[alg.block..])
  }

  /** The fewest zero bytes that make message, mark, zeros and length field a whole number of blocks. */
  ghost predicate IsZeroCount(alg: Algorithm, n: nat, z: nat)
    requires alg.block > 0
  {
    (n + 1 + z + alg.lengthBytes) % alg.block == 0 && z < alg.block
  }

  ghost function ZeroCount(alg: Algorithm, n: nat): (z: nat)
    requires alg.Known()
    ensures IsZeroCount(alg, n, z)
  {
    if alg.block == 64 then ZeroCount64(n); (119 - n % 64) % 64
    else ZeroCount128(n); (239 - n % 128) % 128
  }

  lemma ZeroCount64(n: nat)
    ensures (n + 1 + (119 - n % 64) % 64 + 8) % 64 == 0
  {
    Quotient(n + 1 + (119 - n % 64) % 64 + 8, n / 64 + (if n % 64 < 56 then 1 else 2), 64, 0);
  }

  lemma ZeroCount128(n: nat)
    ensures (n + 1 + (239 - n % 128) % 128 + 16) % 128 == 0
  {
    Quotient(n + 1 + (239 - n % 128) % 128 + 16, n / 128 + (if n % 128 < 112 then 1 else 2), 128, 0);
  }

  /** The message length in bits, modulo what the length field holds. */
  function BitLength(alg: Algorithm, n: nat): nat {
    if alg.lengthBytes == 8 then 8 * n % TWO_64 else 8 * n % TWO_128
  }

  ghost function Padding(alg: Algorithm, n: nat): seq<Byte>
    requires alg.Known()
  {
    [0x80] + Zeros(ZeroCount(alg, n)) + Encoded(alg, BitLength(alg, n), alg.lengthBytes)
  }

  ghost function Hash(alg: Algorithm, msg: seq<Byte>): seq<Byte>
    requires alg.Known()
  {
    EncodedWords(alg, Fold(alg, alg.init, msg + Padding(alg, |msg|)))
  }

  // ---- folding in parts

  /** Folding may stop after any prefix and resume from the state and the rest. */
  lemma {:induction false} FoldResumes(alg: Algorithm, s: State, msg: seq<Byte>, more: seq<Byte>)
    requires alg.block > 0
    ensures Fold(alg, s, msg + more) == Fold(alg, Fold(alg, s, msg), Rest(alg, msg) + more)
    ensures Rest(alg, msg + more) == Rest(alg, Rest(alg, msg) + more)
    decreases |msg|
  {
    if |msg| >= alg.block {
      var tail := msg[alg.block..];
      assert (msg + more)[..alg.block] == msg[..alg.block];
      assert (msg + more)[alg.block..] == tail + more;
      FoldResumes(alg, alg.Step(s, msg[..alg.block]), tail, more);
    }
  }

  lemma {:induction false} RestLength(alg: Algorithm, msg: seq<Byte>)
    requires alg.Known()
    ensures |Rest(alg, msg)| == |msg| % alg.block
    decreases |msg|
  {
    if |msg| >= alg.block {
      RestLength(alg, msg[alg.block..]);
      OneBlockLess(|msg|);
    }
  }

  lemma OneBlockLess(n: nat)
    ensures n >= 64 ==> (n - 64) % 64 == n % 64
    ensures n >= 128 ==> (n - 128) % 128 == n % 128
  {
  }

  lemma {:induction false} FoldKeepsWidth(alg: Algorithm, s: State, msg: seq<Byte>)
    requires alg.block > 0 && alg.KeepsWidth() && |s| == alg.words
    ensures |Fold(alg, s, msg)| == alg.words
    decreases |msg|
  {
    if |msg| >= alg.block {
      FoldKeepsWidth(alg, alg.Step(s, msg[..alg.block]), msg[alg.block..]);
    }
  }

  lemma ZeroCountUnique(alg: Algorithm, n: nat, z: nat)
    requires alg.Known() && IsZeroCount(alg, n, z)
    ensures z == ZeroCount(alg, n)
  {
    var y := ZeroCount(alg, n);
    if alg.block == 64 {
      SameResidue64(n + 1 + alg.lengthBytes, z, y);
    } else {
      SameResidue128(n + 1 + alg.lengthBytes, z, y);
    }
  }

  lemma SameResidue64(a: nat, z: nat, y: nat)
    requires (a + z) % 64 == (a + y) % 64 && z < 64 && y < 64
    ensures z == y
  {
  }

  lemma SameResidue128(a: nat, z: nat, y: nat)
    requires (a + z) % 128 == (a + y) % 128 && z < 128 && y < 128
    ensures z == y
  {
  }

  // ---- the bytes of a number

  lemma {:induction false} BigEndianAt(v: nat, k: nat, i: nat)
    requires i < k
    ensures BigEndian(v, k)[i] == ByteAt(v, k - 1 - i)
  {
    hide LowByte;
    if i < k - 1 {
      BigEndianAt(v / 256, k - 1, i);
    }
  }

  lemma {:induction false} LittleEndianAt(v: nat, k: nat, i: nat)
    requires i < k
    ensures LittleEndian(v, k)[i] == ByteAt(v, i)
  {
    hide LowByte;
    if i > 0 {
      LittleEndianAt(v / 256, k - 1, i - 1);
    }
  }

  lemma {:induction false} BigEndianSplit(v: nat, i: nat, j: nat)
    ensures BigEndian(v, i + j) == BigEndian(Shifted(v, j), i) + BigEndian(v, j)
    decreases j
  {
    hide LowByte;
    if j > 0 {
      BigEndianSplit(v / 256, i, j - 1);
    }
  }

  ghost function Exp256(k: nat): nat {
    if k == 0 then 1 else 256 * Exp256(k - 1)
  }

  /** Taking the low byte off leaves the part above k bytes above k - 1. */
  lemma ExpStep(v: nat, a: nat, k: nat)
    requires k > 0
    ensures Exp256(k) * a >= 0 && Exp256(k - 1) * a >= 0
    ensures (v + Exp256(k) * a) / 256 == v / 256 + Exp256(k - 1) * a && (v + Exp256(k) * a) % 256 == v % 256
  {
    var e := Exp256(k - 1) * a;
    assert Exp256(k) * a == 256 * e;
    Quotient(v + 256 * e, v / 256 + e, 256, v % 256);
  }

  /** Only the low k bytes matter. */
  lemma {:induction false} BigEndianLow(v: nat, a: nat, k: nat)
    ensures BigEndian(v + Exp256(k) * a, k) == BigEndian(v, k)
  {
    hide Exp256;
    if k > 0 {
      ExpStep(v, a, k);
      BigEndianLow(v / 256, a, k - 1);
    }
  }

  lemma {:induction false} ShiftedExact(v: nat, a: nat, k: nat)
    requires v < Exp256(k)
    ensures Shifted(v + Exp256(k) * a, k) == a
  {
    if k > 0 {
      ExpStep(v, a, k);
      ShiftedExact(v / 256, a, k - 1);
    }
  }

  lemma Exp256_8()
    ensures Exp256(8) == TWO_64
  {
    assert Exp256(2) == 0x1_0000;
    assert Exp256(4) == 0x1_0000_0000;
    assert Exp256(6) == 0x1_0000_0000_0000;
  }

  /** Two 64-bit halves, high one first, are one 128-bit number. */
  lemma BigEndianHalves(hi: nat, lo: nat)
    requires lo < TWO_64
    ensures BigEndian(TWO_64 * hi + lo, 16) == BigEndian(hi, 8) + BigEndian(lo, 8)
  {
    Exp256_8();
    BigEndianSplit(TWO_64 * hi + lo, 8, 8);
    ShiftedExact(lo, hi, 8);
    BigEndianLow(lo, hi, 8);
  }

  // ---- the 128-bit bit counter

  /** One update of the (hi, lo) counter: lo wraps, and hi counts the wraps. */
  function CountStep(hi: nat, lo: nat, size: nat): (nat, nat) {
    var add := 8 * size % TWO_64;
    ((if (lo + add) % TWO_64 < lo then (hi + 1) % TWO_64 else hi), (lo + add) % TWO_64)
  }

  /** The counter adds what the 64-bit product 8 * size keeps of the bit count. */
  lemma CountStepAdds(hi: nat, lo: nat, size: nat)
    requires hi < TWO_64 && lo < TWO_64
    ensures var (h, l) := CountStep(hi, lo, size);
            h < TWO_64 && l < TWO_64 && TWO_64 * h + l == (TWO_64 * hi + lo + 8 * size % TWO_64) % TWO_128
  {
    var add := 8 * size % TWO_64;
    var (h, l) := CountStep(hi, lo, size);
    if lo + add < TWO_64 {
      assert l == lo + add;
    } else {
      assert l == lo + add - TWO_64;
      if hi + 1 == TWO_64 {
        assert h == 0;
        assert TWO_64 * hi + lo + add == TWO_128 + l;
      }
    }
  }

  /** For every size a 64-bit call can pass, the counter is right exactly below 2^61 bytes. */
  lemma CountStepExactIff(hi: nat, lo: nat, size: nat)
    requires hi < TWO_64 && lo < TWO_64 && size < TWO_64
    ensures var (h, l) := CountStep(hi, lo, size);
            TWO_64 * h + l == (TWO_64 * hi + lo + 8 * size) % TWO_128 <==> size < 0x2000_0000_0000_0000
  {
    CountStepAdds(hi, lo, size);
    var v, add, q := TWO_64 * hi + lo, 8 * size % TWO_64, 8 * size / TWO_64;
    assert 8 * size == TWO_64 * q + add && q < 8;
    SumsDiffer(v + add, TWO_64 * q);
  }

  lemma SumsDiffer(a: nat, d: nat)
    requires d < TWO_128
    ensures (a + d) % TWO_128 == a % TWO_128 <==> d == 0
  {
    var r := a % TWO_128;
    assert a == TWO_128 * (a / TWO_128) + r;
    if r + d < TWO_128 {
      assert (a + d) % TWO_128 == r + d;
    } else {
      assert (a + d) % TWO_128 == r + d - TWO_128;
    }
  }
}
