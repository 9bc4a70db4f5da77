/** HMAC over a digest with 64-byte blocks (RFC 2104 section 2). */
module Hmac {
  import opened Bytes
  import opened DigestSpec
  import opened DigestStream

  /** The key made exactly one block long: hashed if longer, then zero padded. */
  ghost function BlockKey(alg: Algorithm, key: seq<Byte>): (k: seq<Byte>)
    requires alg.Known() && alg.KeepsWidth() && alg.block == 64
    ensures |k| == 64
  {
    ShortHash(alg, key);
    var short := if |key| > 64 then Hash(alg, key) else key;
    short + Zeros(64 - |short|)
  }

  lemma ShortHash(alg: Algorithm, msg: seq<Byte>)
    requires alg.Known() && alg.KeepsWidth() && alg.block == 64
    ensures |Hash(alg, msg)| <= 64
  {
    hide Fold;
    FoldKeepsWidth(alg, alg.init, msg + Padding(alg, |msg|));
  }

  function Xored(s: seq<Byte>, mask: Byte): (r: seq<Byte>)
    ensures |r| == |s|
  {
    seq(|s|, i requires 0 <= i < |s| => s[i] ^ mask)
  }

  /** H((K0 xor opad) || H((K0 xor ipad) || data)). */
  ghost function Mac(alg: Algorithm, key: seq<Byte>, data: seq<Byte>): seq<Byte>
    requires alg.Known() && alg.KeepsWidth() && alg.block == 64
  {
    var k0 := BlockKey(alg, key);
    Hash(alg, Xored(k0, 0x5c) + Hash(alg, Xored(k0, 0x36) + data))
  }

  /** A key's byte under a mask; what the key lacks of a block counts as zero. */
  function Masked(key: seq<Byte>, i: nat, mask: Byte): Byte {
    if i < |key| then key[i] ^ mask else mask
  }

  /** A key of up to a block, byte by byte: the outer block under 0x5c, and inside it the inner one under 0x36. */
  lemma MacOfShortKey(alg: Algorithm, key: seq<Byte>, data: seq<Byte>)
    requires alg.Known() && alg.KeepsWidth() && alg.block == 64 && |key| <= 64
    ensures var inner := seq(64, i requires 0 <= i < 64 => Masked(key, i, 54));
            var outer := seq(64, i requires 0 <= i < 64 => Masked(key, i, 92));
            Mac(alg, key, data) == Hash(alg, outer + Hash(alg, inner + data))
  {
    hide Hash;
    var k0 := BlockKey(alg, key);
    forall i | 0 <= i < 64
      ensures Xored(k0, 54)[i] == Masked(key, i, 54) && Xored(k0, 92)[i] == Masked(key, i, 92)
    {
      UnderMask(0, 54);
      UnderMask(0, 92);
    }
    assert Xored(k0, 54) == seq(64, i requires 0 <= i < 64 => Masked(key, i, 54));
    assert Xored(k0, 92) == seq(64, i requires 0 <= i < 64 => Masked(key, i, 92));
  }

  lemma UnderMask(x: Byte, mask: Byte)
    ensures x == 0 ==> x ^ mask == mask
  {
  }

  /** A longer key counts as its own hash. */
  lemma MacOfLongKey(alg: Algorithm, key: seq<Byte>, data: seq<Byte>)
    requires alg.Known() && alg.KeepsWidth() && alg.block == 64 && |key| > 64
    ensures |Hash(alg, key)| <= 64 && Mac(alg, key, data) == Mac(alg, Hash(alg, key), data)
  {
    hide Hash;
    ShortHash(alg, key);
  }

  /** HmacSha256 and HmacMd5 differ only in their digest. */
  class Hmac {
    const alg: Algorithm
    const inner: Digest
    const outer: Digest
    var keyed: bool

    /** The key in force, and the data absorbed under it. */
    ghost var key: seq<Byte>
    ghost var data: seq<Byte>

    ghost predicate Layout()
      reads this, inner, outer
    {
      && alg.Known() && alg.KeepsWidth() && alg.block == 64
      && inner != outer && inner.buffer != outer.buffer && inner.alg == outer.alg == alg
      && inner.Layout() && outer.Layout()
    }

    ghost predicate Valid()
      reads this, inner, outer, inner.buffer, outer.buffer
    {
      && Layout() && inner.Valid() && outer.Valid()
      && (keyed ==>
            && inner.message == Xored(BlockKey(alg, key), 0x36) + data
            && outer.message == Xored(BlockKey(alg, key), 0x5c))
    }

    constructor (alg: Algorithm)
      requires alg.Known() && alg.KeepsWidth() && alg.block == 64
      ensures Valid() && !keyed && this.alg == alg
      ensures fresh(inner) && fresh(outer) && fresh(inner.buffer) && fresh(outer.buffer)
      ensures inner.message == outer.message == []
    {
      this.alg := alg;
      inner := new Digest(alg);
      outer := new Digest(alg);
      keyed := false;
      key, data := [], [];
    }

    method Reset()
      requires Layout()
      modifies this, inner, outer
      ensures Valid() && !keyed && inner.message == outer.message == []
    {
      inner.Reset();
      outer.Reset();
      keyed := false;
    }

    /** The key, hashed first when it is longer than a block. */
    method ShortKey(newKey: seq<Byte>) returns (short: seq<Byte>)
      requires Layout()
      ensures short == if |newKey| > 64 then Hash(alg, newKey) else newKey
    {
      if |newKey| <= 64 {
        return newKey;
      }
      var h := new Digest(alg);
      h.Update(newKey);
      assert h.message == newKey;
      short := h.Finish();
    }

    /** Both pads, built in place from the same padded key. */
    method MakePads(newKey: seq<Byte>) returns (kipad: array<Byte>, kopad: array<Byte>)
      requires Layout()
      ensures fresh(kipad) && fresh(kopad)
      ensures kipad[..] == Xored(BlockKey(alg, newKey), 0x36) && kopad[..] == Xored(BlockKey(alg, newKey), 0x5c)
    {
      hide Hash;
      var short := ShortKey(newKey);
      ShortHash(alg, newKey);
      kipad := new Byte[64](_ => 0);
      kopad := new Byte[64](_ => 0);
      forall i | 0 <= i < |short| {
        kipad[i] := short[i];
      }
      forall i | 0 <= i < 64 {
        kopad[i] := kipad[i];
      }
      ghost var k0 := BlockKey(alg, newKey);
      assert kipad[..] == k0 && kopad[..] == k0;
      for i := 0 to 64
        invariant forall j :: 0 <= j < i ==> kipad[j] == k0[j] ^ 0x36 && kopad[j] == k0[j] ^ 0x5c
        invariant forall j :: i <= j < 64 ==> kipad[j] == k0[j] == kopad[j]
      {
        kipad[i] := kipad[i] ^ 0x36;
        kopad[i] := kopad[i] ^ 0x5c;
      }
    }

    /** Starts over under a new key, whatever was absorbed or finished before. */
    method SetKey(newKey: seq<Byte>)
      requires Layout()
      modifies this, inner, outer, inner.buffer, outer.buffer
      ensures Valid() && keyed && key == newKey && data == []
    {
      hide Fold, Rest, Hash, BlockKey, Xored;
      var kipad, kopad := MakePads(newKey);
      inner.Reset();
      inner.Update(kipad[..]);
      outer.Reset();
      outer.Update(kopad[..]);
      assert inner.message == Xored(BlockKey(alg, newKey), 0x36) + [];
      keyed := true;
      key, data := newKey, [];
    }

    method Update(bytes: seq<Byte>)
      requires Valid()
      modifies this, inner, inner.buffer
      ensures Valid() && keyed == old(keyed) && key == old(key) && data == old(data) + bytes
      ensures inner.message == old(inner.message) + bytes
    {
      hide Fold, Rest, BlockKey;
      inner.Update(bytes);
      data := data + bytes;
    }

    /** Hashes the inner digest with the outer stream. The key has to be set again before reuse. */
    method Finish() returns (mac: seq<Byte>)
      requires Valid()
      modifies this, inner, outer, inner.buffer, outer.buffer
      ensures Layout() && !keyed
      ensures mac == Hash(alg, old(outer.message) + Hash(alg, old(inner.message)))
      ensures old(keyed) ==> mac == Mac(alg, old(key), old(data))
    {
      hide Fold, Rest, BlockKey, Hash;
      var innerDigest := inner.Finish();
      outer.Update(innerDigest);
      mac := outer.Finish();
      keyed := false;
    }
  }
}
