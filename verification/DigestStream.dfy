/** The streaming digests: a block buffer, a wrapping bit counter, and the padding tail. */
module DigestStream {
  import opened Arithmetic
  import opened Bytes
  import opened DigestSpec

  lemma FoldStep(alg: Algorithm, s: State, block: seq<Byte>, whole: seq<Byte>)
    requires 0 < alg.block == |block| <= |whole| && whole[..|block|] == block
    ensures Fold(alg, s, whole) == Fold(alg, alg.Step(s, block), whole[|block|..])
    ensures Rest(alg, whole) == Rest(alg, whole[|block|..])
  {
  }

  /** Md5, Sha1, Sha256 and Sha512 differ only in alg; only Sha512 has the high counter word. */
  class Digest {
    const alg: Algorithm
    var state: State
    var bitCount: nat
    var bitCountHi: nat
    const buffer: array<Byte>
    var bufferUsed: nat

    /** Everything absorbed since the last reset. */
    ghost var message: seq<Byte>
    /** Every update so far was shorter than 2^61 bytes. */
    ghost var counted: bool

    ghost predicate Layout()
      reads this
    {
      alg.Known() && alg.KeepsWidth() && buffer.Length == alg.block
    }

    ghost predicate Valid()
      reads this, buffer
    {
      && Layout() && bufferUsed < alg.block
      && state == Fold(alg, alg.init, message) && buffer[..bufferUsed] == Rest(alg, message)
      && bitCountHi < TWO_64 && bitCount == 8 * |message| % TWO_64
      && (alg.block == 128 && counted ==> TWO_64 * bitCountHi + bitCount == 8 * |message| % TWO_128)
    }

    constructor (alg: Algorithm)
      requires alg.Known() && alg.KeepsWidth()
      ensures Valid() && message == [] && counted && this.alg == alg && fresh(buffer)
    {
      this.alg := alg;
      buffer := new Byte[alg.block](_ => 0);
      state, bitCount, bitCountHi, bufferUsed := alg.init, 0, 0, 0;
      message, counted := [], true;
    }

    method Reset()
      requires Layout()
      modifies this
      ensures Valid() && message == [] && counted
    {
      state, bitCount, bitCountHi, bufferUsed := alg.init, 0, 0, 0;
      message, counted := [], true;
    }

    method Count(size: nat)
      requires bitCount < TWO_64 && bitCountHi < TWO_64
      modifies `bitCount, `bitCountHi
      ensures bitCount < TWO_64 && bitCountHi < TWO_64
      ensures bitCount == CountStep(old(bitCountHi), old(bitCount), size).1
      ensures bitCountHi == if alg.block == 128 then CountStep(old(bitCountHi), old(bitCount), size).0
              else old(bitCountHi)
    {
      var add := 8 * size % TWO_64;
      if alg.block == 128 && (bitCount + add) % TWO_64 < bitCount {
        bitCountHi := (bitCountHi + 1) % TWO_64;
      }
      bitCount := (bitCount + add) % TWO_64;
    }

    /** First step of an update: top up a started block, and process it once it is full. */
    method TopUp(data: seq<Byte>) returns (p: nat)
      requires Layout() && 0 < bufferUsed < alg.block
      modifies `state, `bufferUsed, buffer
      ensures bufferUsed < alg.block && p <= |data|
      ensures var all := old(buffer[..bufferUsed]) + data;
              if |all| < alg.block then
                p == |data| && bufferUsed > 0 && buffer[..bufferUsed] == all && state == old(state)
              else
                && bufferUsed == 0
                && Fold(alg, state, data[p..]) == Fold(alg, old(state), all)
                && Rest(alg, data[p..]) == Rest(alg, all)
    {
      hide Fold, Rest;
      ghost var all := buffer[..bufferUsed] + data;
      var take := if alg.block - bufferUsed < |data| then alg.block - bufferUsed else |data|;
      forall i | 0 <= i < take {
        buffer[bufferUsed + i] := data[i];
      }
      bufferUsed := bufferUsed + take;
      p := take;
      assert buffer[..bufferUsed] == all[..bufferUsed] && all[bufferUsed..] == data[p..];
      if bufferUsed == alg.block {
        FoldStep(alg, state, buffer[..alg.block], all);
        state := alg.Step(state, buffer[..alg.block]);
        bufferUsed := 0;
      }
    }

    /** Then whole blocks straight from the input, and what is left into the empty buffer. */
    method Drain(data: seq<Byte>, from: nat)
      requires Layout() && bufferUsed == 0 && from <= |data|
      modifies `state, `bufferUsed, buffer
      ensures bufferUsed < alg.block
      ensures state == Fold(alg, old(state), data[from..]) && buffer[..bufferUsed] == Rest(alg, data[from..])
    {
      hide Fold, Rest;
      ghost var s0 := state;
      var p := from;
      while |data| - p >= alg.block
        invariant p <= |data| && bufferUsed == 0
        invariant Fold(alg, state, data[p..]) == Fold(alg, s0, data[from..])
        invariant Rest(alg, data[p..]) == Rest(alg, data[from..])
      {
        assert data[p..][..alg.block] == data[p..p + alg.block] && data[p..][alg.block..] == data[p + alg.block..];
        FoldStep(alg, state, data[p..p + alg.block], data[p..]);
        state := alg.Step(state, data[p..p + alg.block]);
        p := p + alg.block;
      }
      FoldShort(alg, state, data[p..]);
      if |data| - p > 0 {
        forall i | 0 <= i < |data| - p {
          buffer[i] := data[p + i];
        }
        bufferUsed := |data| - p;
      }
      assert buffer[..bufferUsed] == data[p..];
    }

    /** Absorbs data, whatever its length. */
    method Update(data: seq<Byte>)
      requires Valid()
      modifies this, buffer
      ensures Valid() && message == old(message) + data
      ensures counted == (old(counted) && |data| < 0x2000_0000_0000_0000)
    {
      hide Fold, Rest, CountStep;
      ghost var s0, all := state, buffer[..bufferUsed] + data;
      FoldResumes(alg, alg.init, message, data);
      CountedMore(bitCountHi, bitCount, |message|, |data|);
      Count(|data|);
      var p := 0;
      if bufferUsed > 0 {
        p := TopUp(data);
        FoldShort(alg, s0, buffer[..bufferUsed]);
      } else {
        assert all == data[p..];
      }
      if bufferUsed == 0 {
        Drain(data, p);
      }
      message := message + data;
      counted := counted && |data| < 0x2000_0000_0000_0000;
    }

    /** A 64-bit length word, byte by byte in the digest's order. */
    method WordField(v: nat) returns (f: seq<Byte>)
      ensures f == Encoded(alg, v, 8)
    {
      hide BigEndian, LittleEndian, ByteAt;
      f := [];
      for i := 0 to 8
        invariant |f| == i
        invariant forall k :: 0 <= k < i ==> f[k] == Encoded(alg, v, 8)[k]
      {
        BigEndianAt(v, 8, i);
        LittleEndianAt(v, 8, i);
        f := f + [ByteAt(v, if alg.littleEndian then i else 7 - i)];
      }
    }

    method LengthField() returns (f: seq<Byte>)
      requires Valid()
      ensures alg.block == 64 || counted ==> f == Encoded(alg, BitLength(alg, |message|), alg.lengthBytes)
    {
      hide BigEndian, LittleEndian, Fold, Rest;
      if alg.block == 128 {
        var high := WordField(bitCountHi);
        var low := WordField(bitCount);
        BigEndianHalves(bitCountHi, bitCount);
        return high + low;
      }
      f := WordField(bitCount);
    }

    /** The hash of everything absorbed. Uses the digest up: reset before reuse. */
    method Finish() returns (out: seq<Byte>)
      requires Valid()
      modifies this, buffer
      ensures Layout()
      ensures old(alg.block == 64 || counted) ==> out == Hash(alg, old(message))
      ensures |out| == alg.wordBytes * alg.words
    {
      hide Fold, Rest, Encoded, EncodedWords, BitLength;
      ghost var msg := message;
      RestLength(alg, msg);
      var field := LengthField();
      var pad := if bufferUsed < alg.block - alg.lengthBytes
                 then alg.block - alg.lengthBytes - bufferUsed - 1
                 else 2 * alg.block - alg.lengthBytes - bufferUsed - 1;
      PadIsZeroCount(alg, |msg|, bufferUsed, pad);
      Update([0x80] + Zeros(pad) + field);
      FoldKeepsWidth(alg, alg.init, message);
      out := DigestBytes();
    }

    /** The state words as bytes. */
    method DigestBytes() returns (out: seq<Byte>)
      requires alg.Known()
      ensures out == EncodedWords(alg, state)
    {
      hide BigEndian, LittleEndian, ByteAt;
      out := [];
      for i := 0 to |state|
        invariant out == EncodedWords(alg, state[..i])
      {
        ghost var whole := Encoded(alg, state[i], alg.wordBytes);
        ghost var before := out;
        for j := 0 to alg.wordBytes
          invariant out == before + whole[..j]
        {
          BigEndianAt(state[i], alg.wordBytes, j);
          LittleEndianAt(state[i], alg.wordBytes, j);
          out := out + [ByteAt(state[i], if alg.littleEndian then j else alg.wordBytes - 1 - j)];
        }
        assert whole[..alg.wordBytes] == whole;
        assert state[..i + 1][..i] == state[..i];
      }
      assert state[..|state|] == state;
    }
  }

  lemma PadIsZeroCount(alg: Algorithm, n: nat, used: nat, pad: nat)
    requires alg.Known() && used == n % alg.block
    requires pad == if used < alg.block - alg.lengthBytes
                    then alg.block - alg.lengthBytes - used - 1
                    else 2 * alg.block - alg.lengthBytes - used - 1
    ensures pad == ZeroCount(alg, n)
  {
    if alg.block == 64 {
      Quotient(n + 1 + pad + 8, n / 64 + (if used < 56 then 1 else 2), 64, 0);
    } else {
      Quotient(n + 1 + pad + 16, n / 128 + (if used < 112 then 1 else 2), 128, 0);
    }
    ZeroCountUnique(alg, n, pad);
  }

  lemma FoldShort(alg: Algorithm, s: State, msg: seq<Byte>)
    requires |msg| < alg.block
    ensures Fold(alg, s, msg) == s && Rest(alg, msg) == msg
  {
  }

  /** Counting size more bytes onto a counter that is right. */
  lemma CountedMore(hi: nat, lo: nat, n: nat, size: nat)
    requires hi < TWO_64 && lo == 8 * n % TWO_64
    ensures CountStep(hi, lo, size).1 == 8 * (n + size) % TWO_64
    ensures TWO_64 * hi + lo == 8 * n % TWO_128 && size < 0x2000_0000_0000_0000 ==>
              var (h, l) := CountStep(hi, lo, size); TWO_64 * h + l == 8 * (n + size) % TWO_128
  {
    CountStepAdds(hi, lo, size);
    AddMod(8 * n, 8 * size);
    if TWO_64 * hi + lo == 8 * n % TWO_128 && size < 0x2000_0000_0000_0000 {
      CountStepExactIff(hi, lo, size);
    }
  }

  lemma AddMod(a: nat, b: nat)
    ensures (a % TWO_64 + b % TWO_64) % TWO_64 == (a + b) % TWO_64
    ensures (a % TWO_128 + b) % TWO_128 == (a + b) % TWO_128
  {
    Wrap(a % TWO_64 + b % TWO_64, a / TWO_64 + b / TWO_64);
    Wrap(a % TWO_128 + b, a / TWO_128);
  }

  lemma Wrap(x: nat, k: nat)
    ensures (x + TWO_64 * k) % TWO_64 == x % TWO_64
    ensures (x + TWO_128 * k) % TWO_128 == x % TWO_128
  {
  }
}
