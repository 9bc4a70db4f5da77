/**
 What the digests' bytes mean, and why the construction adds no collisions of its own: two
 messages of the same digest come with two different inputs the block function takes to the
 same state, among those it is given for the two.
 */
module DigestCollisions {
  import Arithmetic
  import opened Bytes
  import opened DigestSpec

  // ---- the number that bytes spell

  function BigValue(b: seq<Byte>): nat {
    if |b| == 0 then 0 else 256 * BigValue(b[..|b| - 1]) + b[|b| - 1] as nat
  }

  function LittleValue(b: seq<Byte>): nat {
    if |b| == 0 then 0 else b[0] as nat + 256 * LittleValue(b[1..])
  }

  function Value(alg: Algorithm, b: seq<Byte>): nat {
    if alg.littleEndian then LittleValue(b) else BigValue(b)
  }

  lemma LowByteMeans(v: nat)
    ensures LowByte(v) as nat == v % 256
  {
    Narrow(v % 256);
  }

  lemma NextByte(b: Byte)
    requires b < 255
    ensures (b + 1) as nat == b as nat + 1
  {
  }

  /** Every number below 256 is a byte's. */
  lemma {:induction false} ByteReached(r: nat) returns (b: Byte)
    requires r < 256
    ensures b as nat == r
  {
    b := 0;
    if r > 0 {
      b := ByteReached(r - 1);
      NextByte(b);
      b := b + 1;
    }
  }

  lemma Narrow(r: nat)
    requires r < 256
    ensures (r as bv8) as nat == r
  {
    var b := ByteReached(r);
    assert (b as nat) as bv8 == b;
  }

  lemma {:induction false} BigEndianMeans(v: nat, k: nat)
    requires v < Exp256(k)
    ensures BigValue(BigEndian(v, k)) == v
    decreases k
  {
    hide LowByte;
    if k > 0 {
      BigEndianMeans(v / 256, k - 1);
      LowByteMeans(v);
      assert BigEndian(v, k)[..k - 1] == BigEndian(v / 256, k - 1);
    }
  }

  lemma {:induction false} LittleEndianMeans(v: nat, k: nat)
    requires v < Exp256(k)
    ensures LittleValue(LittleEndian(v, k)) == v
    decreases k
  {
    hide LowByte;
    if k > 0 {
      LittleEndianMeans(v / 256, k - 1);
      LowByteMeans(v);
      assert LittleEndian(v, k)[1..] == LittleEndian(v / 256, k - 1);
    }
  }

  /** A number that fits its bytes can be read off them. */
  lemma EncodedMeans(alg: Algorithm, v: nat, k: nat)
    requires v < Exp256(k)
    ensures Value(alg, Encoded(alg, v, k)) == v
  {
    hide BigEndian, LittleEndian;
    BigEndianMeans(v, k);
    LittleEndianMeans(v, k);
  }

  // ---- the padded message

  ghost function Padded(alg: Algorithm, msg: seq<Byte>): seq<Byte>
    requires alg.Known()
  {
    msg + Padding(alg, |msg|)
  }

  /** The message's bit count fits the length field. */
  predicate CountFits(alg: Algorithm, msg: seq<Byte>) {
    8 * |msg| < if alg.lengthBytes == 8 then TWO_64 else TWO_128
  }

  lemma Exp256_16()
    ensures Exp256(8) == TWO_64 && Exp256(16) == TWO_128
  {
    Exp256_8();
    assert Exp256(10) == 0x1_0000 * TWO_64;
    assert Exp256(12) == 0x1_0000_0000 * TWO_64;
    assert Exp256(14) == 0x1_0000_0000_0000 * TWO_64;
  }

  /** Whole blocks: the message, a byte 128, fewer zeros than a block, and the bit count in the digest's byte order. */
  lemma PaddedMeans(alg: Algorithm, msg: seq<Byte>)
    requires alg.Known() && CountFits(alg, msg)
    ensures var p, n := Padded(alg, msg), alg.lengthBytes;
            && |p| % alg.block == 0 && |msg| + 1 + n <= |p| <= |msg| + alg.block + n
            && p[..|msg|] == msg && p[|msg|] == 128
            && (forall i :: |msg| < i < |p| - n ==> p[i] == 0)
            && Value(alg, p[|p| - n..]) == 8 * |msg|
  {
    hide Encoded, Value, Exp256, ZeroCount, Padded, BitLength;
    var z, n := ZeroCount(alg, |msg|), alg.lengthBytes;
    var field := Encoded(alg, 8 * |msg|, n);
    PaddedLength(alg, |msg|);
    PaddedParts(alg, msg);
    Shape(msg, z, field);
    Exp256_16();
    EncodedMeans(alg, 8 * |msg|, n);
  }

  lemma PaddedParts(alg: Algorithm, msg: seq<Byte>)
    requires alg.Known() && CountFits(alg, msg)
    ensures Padded(alg, msg) ==
            msg + ([0x80] + Zeros(ZeroCount(alg, |msg|)) + Encoded(alg, 8 * |msg|, alg.lengthBytes))
  {
    hide Encoded, ZeroCount;
    assert BitLength(alg, |msg|) == 8 * |msg|;
  }

  lemma PaddedLength(alg: Algorithm, n: nat)
    requires alg.Known()
    ensures ZeroCount(alg, n) < alg.block && (n + 1 + ZeroCount(alg, n) + alg.lengthBytes) % alg.block == 0
  {
    hide ZeroCount;
  }

  lemma Shape(msg: seq<Byte>, z: nat, field: seq<Byte>)
    ensures var p, n := msg + ([0x80] + Zeros(z) + field), |field|;
            && |p| == |msg| + 1 + z + n && p[..|msg|] == msg && p[|msg|] == 128 && p[|p| - n..] == field
            && forall i :: |msg| < i < |p| - n ==> p[i] == 0
  {
  }

  // ---- what the block function is given

  type Input = (State, seq<Byte>)

  ghost function Inputs(alg: Algorithm, s: State, text: seq<Byte>): set<Input>
    requires alg.block > 0
    decreases |text|
  {
    if |text| < alg.block then {}
    else {(s, text[..alg.block])} + Inputs(alg, alg.Step(s, text[..alg.block]), text[alg.block..])
  }

  /** Two different inputs, one of each set, lead to the same state. */
  ghost predicate Collide(alg: Algorithm, xs: set<Input>, ys: set<Input>) {
    exists x, y :: x in xs && y in ys && x != y && alg.Step(x.0, x.1) == alg.Step(y.0, y.1)
  }

  lemma {:induction false} LastInput(alg: Algorithm, s: State, front: seq<Byte>, last: seq<Byte>)
    requires alg.block > 0 && |front| % alg.block == 0 && |last| == alg.block
    ensures Fold(alg, s, front + last) == alg.Step(Fold(alg, s, front), last)
    ensures Inputs(alg, s, front + last) == Inputs(alg, s, front) + {(Fold(alg, s, front), last)}
    decreases |front|
  {
    var text, n := front + last, alg.block;
    if |front| == 0 {
      assert text == last && text[..n] == last && text[n..] == [];
    } else {
      LessBlocks(|front|, n);
      var t := alg.Step(s, front[..n]);
      assert text[..n] == front[..n] && text[n..] == front[n..] + last;
      LastInput(alg, t, front[n..], last);
    }
  }

  lemma LessBlocks(m: nat, n: nat)
    requires n > 0 && m > 0 && m % n == 0
    ensures m >= n && (m - n) % n == 0
  {
    var q := m / n;
    assert m == q * n;
    assert (q - 1) * n == q * n - n;
    Arithmetic.AtLeast(q, n);
    Arithmetic.Quotient(m - n, q - 1, n, 0);
  }

  lemma {:induction false} FoldsCollide(alg: Algorithm, s: State, a: seq<Byte>, b: seq<Byte>)
    requires alg.block > 0 && |a| == |b| && |a| % alg.block == 0
    requires Fold(alg, s, a) == Fold(alg, s, b) && a != b
    ensures Collide(alg, Inputs(alg, s, a), Inputs(alg, s, b))
    decreases |a|
  {
    hide Fold, Inputs;
    LessBlocks(|a|, alg.block);
    var cut := |a| - alg.block;
    var x, y := (Fold(alg, s, a[..cut]), a[cut..]), (Fold(alg, s, b[..cut]), b[cut..]);
    assert a == a[..cut] + a[cut..] && b == b[..cut] + b[cut..];
    LastInput(alg, s, a[..cut], a[cut..]);
    LastInput(alg, s, b[..cut], b[cut..]);
    if x == y {
      FoldsCollide(alg, s, a[..cut], b[..cut]);
    } else {
      assert x in Inputs(alg, s, a) && y in Inputs(alg, s, b);
    }
  }

  // ---- the digest

  /** The block function's words fit their bytes. */
  ghost predicate KeepsWords(alg: Algorithm) {
    && alg.KeepsWidth()
    && forall s: State, b: seq<Byte>, i :: 0 <= i < alg.words ==> alg.process(s, b)[i] < Exp256(alg.wordBytes)
  }

  ghost predicate WordsFit(alg: Algorithm, s: State) {
    forall i :: 0 <= i < |s| ==> s[i] < Exp256(alg.wordBytes)
  }

  lemma {:induction false} WordsMean(alg: Algorithm, s: State, t: State)
    requires |s| == |t| && WordsFit(alg, s) && WordsFit(alg, t) && EncodedWords(alg, s) == EncodedWords(alg, t)
    ensures s == t
    decreases |s|
  {
    hide Encoded, Value;
    if |s| > 0 {
      var n, k := |s| - 1, alg.wordBytes;
      var x, y := EncodedWords(alg, s[..n]), EncodedWords(alg, t[..n]);
      var u, v := Encoded(alg, s[n], k), Encoded(alg, t[n], k);
      EncodedWordsLength(alg, s[..n]);
      EncodedWordsLength(alg, t[..n]);
      assert (x + u)[..|x|] == x && (y + v)[..|y|] == y && (x + u)[|x|..] == u && (y + v)[|y|..] == v;
      EncodedMeans(alg, s[n], k);
      EncodedMeans(alg, t[n], k);
      WordsMean(alg, s[..n], t[..n]);
      assert s == s[..n] + [s[n]] && t == t[..n] + [t[n]];
    }
  }

  /** The digest's bytes are its words in order, each in the digest's byte order. */
  lemma {:induction false} DigestMeans(alg: Algorithm, s: State, i: nat)
    requires i < |s| && WordsFit(alg, s)
    ensures var (k, b) := (alg.wordBytes, EncodedWords(alg, s));
            k * i + k <= |b| == k * |s| && Value(alg, b[k * i..k * i + k]) == s[i]
    decreases |s|
  {
    hide Encoded, Value;
    var n, k := |s| - 1, alg.wordBytes;
    var x, u := EncodedWords(alg, s[..n]), Encoded(alg, s[n], k);
    EncodedWordsLength(alg, s[..n]);
    assert k * n + k == k * |s|;
    if i < n {
      DigestMeans(alg, s[..n], i);
      assert (x + u)[k * i..k * i + k] == x[k * i..k * i + k];
    } else {
      assert (x + u)[k * i..k * i + k] == u;
      EncodedMeans(alg, s[n], k);
    }
  }

  lemma EncodedWordsLength(alg: Algorithm, s: State)
    ensures |EncodedWords(alg, s)| == alg.wordBytes * |s|
  {
  }

  lemma {:induction false} FoldFits(alg: Algorithm, s: State, text: seq<Byte>)
    requires alg.block > 0 && KeepsWords(alg) && |text| >= alg.block
    ensures |Fold(alg, s, text)| == alg.words && WordsFit(alg, Fold(alg, s, text))
    decreases |text|
  {
    var next, rest := alg.Step(s, text[..alg.block]), text[alg.block..];
    if |rest| >= alg.block {
      FoldFits(alg, next, rest);
    }
  }

  /** Different messages whose counts fit have the same digest only if the block function collides on them. */
  lemma HashesCollide(alg: Algorithm, a: seq<Byte>, b: seq<Byte>)
    requires alg.Known() && KeepsWords(alg) && CountFits(alg, a) && CountFits(alg, b)
    requires Hash(alg, a) == Hash(alg, b) && a != b
    ensures Collide(alg, Inputs(alg, alg.init, Padded(alg, a)), Inputs(alg, alg.init, Padded(alg, b)))
  {
    hide Fold, Inputs, Value, Padding, KeepsWords, WordsFit, EncodedWords;
    var p, q, s := Padded(alg, a), Padded(alg, b), alg.init;
    PaddedMeans(alg, a);
    PaddedMeans(alg, b);
    LessBlocks(|p|, alg.block);
    LessBlocks(|q|, alg.block);
    FoldFits(alg, s, p);
    FoldFits(alg, s, q);
    WordsMean(alg, Fold(alg, s, p), Fold(alg, s, q));
    if |a| == |b| {
      assert p != q by {
        assert p[..|a|] == a && q[..|a|] == b;
      }
      assert |p| == |q| by {
        assert |Padding(alg, |a|)| == |Padding(alg, |b|)|;
      }
      FoldsCollide(alg, s, p, q);
    } else {
      var m, n, k := |p| - alg.block, |q| - alg.block, alg.lengthBytes;
      assert p == p[..m] + p[m..] && q == q[..n] + q[n..];
      LastInput(alg, s, p[..m], p[m..]);
      LastInput(alg, s, q[..n], q[n..]);
      assert p[|p| - k..] == p[m..][alg.block - k..] && q[|q| - k..] == q[n..][alg.block - k..];
      var x, y := (Fold(alg, s, p[..m]), p[m..]), (Fold(alg, s, q[..n]), q[n..]);
      assert x in Inputs(alg, s, p) && y in Inputs(alg, s, q) && x != y;
    }
  }

  // ---- where the states start

  /** whole and the fraction's first bits are the prime's square root, cut off there. */
  predicate IsRootOf(whole: nat, w: nat, prime: nat, one: nat) {
    var r := whole * one + w;
    r * r <= prime * one * one < (r + 1) * (r + 1)
  }

  /** SHA-256 and SHA-512 start at the fractions of the first eight primes' square roots. */
  lemma RootsOfPrimes(process: (State, seq<Byte>) -> State)
    ensures var (s, t) := (Sha256(process).init, Sha512(process).init);
            && IsRootOf(1, s[0], 2, 0x1_0000_0000) && IsRootOf(1, s[1], 3, 0x1_0000_0000)
            && IsRootOf(2, s[2], 5, 0x1_0000_0000) && IsRootOf(2, s[3], 7, 0x1_0000_0000)
            && IsRootOf(3, s[4], 11, 0x1_0000_0000) && IsRootOf(3, s[5], 13, 0x1_0000_0000)
            && IsRootOf(4, s[6], 17, 0x1_0000_0000) && IsRootOf(4, s[7], 19, 0x1_0000_0000)
            && IsRootOf(1, t[0], 2, TWO_64) && IsRootOf(1, t[1], 3, TWO_64)
            && IsRootOf(2, t[2], 5, TWO_64) && IsRootOf(2, t[3], 7, TWO_64)
            && IsRootOf(3, t[4], 11, TWO_64) && IsRootOf(3, t[5], 13, TWO_64)
            && IsRootOf(4, t[6], 17, TWO_64) && IsRootOf(4, t[7], 19, TWO_64)
  {
  }

  /** MD5 and SHA-1 start at the bytes 01 23 and so on up and down again, low ones first in a word. */
  lemma CountedUpAndDown(process: (State, seq<Byte>) -> State)
    ensures var (s, t) := (Md5(process).init, Sha1(process).init);
            && s == t[..4]
            && s[0] == LittleValue([0x01, 0x23, 0x45, 0x67]) && s[1] == LittleValue([0x89, 0xab, 0xcd, 0xef])
            && s[2] == LittleValue([0xfe, 0xdc, 0xba, 0x98]) && s[3] == LittleValue([0x76, 0x54, 0x32, 0x10])
            && t[4] == LittleValue([0xf0, 0xe1, 0xd2, 0xc3])
  {
    Four(0x01, 0x23, 0x45, 0x67);
    Four(0x89, 0xab, 0xcd, 0xef);
    Four(0xfe, 0xdc, 0xba, 0x98);
    Four(0x76, 0x54, 0x32, 0x10);
    Four(0xf0, 0xe1, 0xd2, 0xc3);
  }

  lemma Four(a: Byte, b: Byte, c: Byte, d: Byte)
    ensures LittleValue([a, b, c, d]) == a as nat + 256 * (b as nat + 256 * (c as nat + 256 * (d as nat)))
  {
    assert [d][1..] == [] && LittleValue([d]) == d as nat;
    assert [c, d][1..] == [d] && LittleValue([c, d]) == c as nat + 256 * LittleValue([d]);
    assert [b, c, d][1..] == [c, d] && LittleValue([b, c, d]) == b as nat + 256 * LittleValue([c, d]);
    assert [a, b, c, d][1..] == [b, c, d];
  }
}
