/** The same registers a bit at a time, low bit of each byte first: any short burst of bits is detected. */
module CrcBits {
  import opened Bytes
  import opened CrcRegister
  import opened Crc

  function Bit(b: bool): Register {
    if b then 1 else 0
  }

  function BitAt(b: Byte, i: nat): bool
    requires i < 8
  {
    (b >> i) & 1 == 1
  }

  function ByteBits(b: Byte): (s: seq<bool>)
    ensures |s| == 8
  {
    [BitAt(b, 0), BitAt(b, 1), BitAt(b, 2), BitAt(b, 3), BitAt(b, 4), BitAt(b, 5), BitAt(b, 6), BitAt(b, 7)]
  }

  /** A message as the bits the register takes in, in their order. */
  function MessageBits(data: seq<Byte>): (s: seq<bool>)
    ensures |s| == 8 * |data|
  {
    if |data| == 0 then [] else ByteBits(data[0]) + MessageBits(data[1..])
  }

  function AbsorbBits(k: Kind, c: Register, s: seq<bool>): Register
    decreases |s|
  {
    if |s| == 0 then c else AbsorbBits(k, BitStep(k, Plus(c, Bit(s[0]))), s[1..])
  }

  /** Bits as a number, the first one lowest. */
  function BitValue(s: seq<bool>): Register
    decreases |s|
  {
    if |s| == 0 then 0 else Plus(Bit(s[0]), Double(BitValue(s[1..])))
  }

  // ---- how large the number of n bits is

  /** The register's bits from position n up. */
  function Above(n: nat): Register {
    if n == 0 then 0xFFFF_FFFF_FFFF_FFFF else Double(Above(n - 1))
  }

  predicate Clear(v: Register, mask: Register) {
    v & mask == 0
  }

  lemma RawPackBit(w: Register, b: Register, mask: Register)
    requires w & mask == 0 && b <= 1
    ensures (b ^ (w << 1)) & (mask << 1) == 0
  {
  }

  lemma PackBit(w: Register, b: bool, mask: Register)
    requires Clear(w, mask)
    ensures Clear(Plus(Bit(b), Double(w)), Double(mask))
  {
    RawPackBit(w, Bit(b), mask);
  }

  lemma {:induction false} BitValueClear(s: seq<bool>)
    ensures Clear(BitValue(s), Above(|s|))
    decreases |s|
  {
    hide Clear, Plus, Double, Bit;
    if |s| > 0 {
      BitValueClear(s[1..]);
      PackBit(BitValue(s[1..]), s[0], Above(|s| - 1));
    } else {
      ZeroIsClear(Above(0));
    }
  }

  lemma ZeroIsClear(mask: Register)
    ensures Clear(0, mask)
  {
  }

  predicate Holds(big: Register, small: Register) {
    big & small == small
  }

  lemma RawHolds(a: Register, b: Register, c: Register)
    ensures a & b == b ==> (a << 1) & (b << 1) == b << 1
    ensures a & b == b && b & c == c ==> a & c == c
    ensures a & b == b && c & a == 0 ==> c & b == 0
    ensures 0xFFFF_FFFF_FFFF_FFFF & a == a && a & a == a
  {
  }

  lemma {:induction false} AboveNext(n: nat)
    ensures Holds(Above(n), Above(n + 1))
  {
    hide Above;
    AboveUnfold(n);
    if n > 0 {
      AboveNext(n - 1);
      AboveUnfold(n - 1);
      RawHolds(Above(n - 1), Above(n), 0);
    } else {
      RawHolds(Above(1), 0, 0);
    }
  }

  lemma AboveUnfold(n: nat)
    ensures Above(0) == 0xFFFF_FFFF_FFFF_FFFF && Above(n + 1) == Above(n) << 1
  {
  }

  lemma {:induction false} AboveShrinks(m: nat, n: nat)
    requires m <= n
    ensures Holds(Above(m), Above(n))
    decreases n
  {
    hide Above;
    if m < n {
      AboveShrinks(m, n - 1);
      AboveNext(n - 1);
      RawHolds(Above(m), Above(n - 1), Above(n));
    } else {
      RawHolds(Above(m), 0, 0);
    }
  }

  lemma AboveValues()
    ensures Above(16) == 0xFFFF_FFFF_FFFF_0000 && Above(63) == 0x8000_0000_0000_0000
  {
    assert Above(8) == 0xFFFF_FFFF_FFFF_FF00;
    assert Above(16) == 0xFFFF_FFFF_FFFF_0000;
    assert Above(24) == 0xFFFF_FFFF_FF00_0000;
    assert Above(32) == 0xFFFF_FFFF_0000_0000;
    assert Above(40) == 0xFFFF_FF00_0000_0000;
    assert Above(48) == 0xFFFF_0000_0000_0000;
    assert Above(56) == 0xFF00_0000_0000_0000;
  }

  lemma RawClear(v: Register)
    ensures v & 0x8000_0000_0000_0000 == 0 <==> v <= 0xFFFF_FFFF_FFFF_FFFF >> 1
    ensures v & 0xFFFF_FFFF_FFFF_0000 == 0 <==> v <= 0xFFFF
    ensures v <= 0xFFFF_FFFF_FFFF_FFFF
  {
  }

  /** There is room for one more bit above a number of up to 63. */
  lemma RoomAbove(s: seq<bool>)
    requires |s| <= 63
    ensures BitValue(s) <= 0xFFFF_FFFF_FFFF_FFFF >> 1
  {
    hide Above, BitValue;
    BitValueClear(s);
    AboveShrinks(|s|, 63);
    AboveValues();
    RawHolds(Above(|s|), Above(63), BitValue(s));
    RawClear(BitValue(s));
  }

  lemma BitValueFits(k: Kind, c: Register, s: seq<bool>)
    requires Fits(k, c) && |s| <= 8 * Width(k)
    ensures Fits(k, Plus(c, BitValue(s)))
  {
    hide Above, BitValue, Plus;
    if k.Modbus16? {
      BitValueClear(s);
      AboveShrinks(|s|, 16);
      AboveValues();
      RawHolds(Above(|s|), Above(16), BitValue(s));
      RawClear(BitValue(s));
    }
    FitsPlus(k, c, BitValue(s));
  }

  lemma FitsPlus(k: Kind, c: Register, v: Register)
    requires Fits(k, c) && Fits(k, v)
    ensures Fits(k, Plus(c, v))
  {
    RawPlusFits(c, v);
  }

  lemma RawUnpackBit(w: Register, v: Register, a: Register, b: Register)
    requires a <= 1 && b <= 1 && w <= 0xFFFF_FFFF_FFFF_FFFF >> 1 && v <= 0xFFFF_FFFF_FFFF_FFFF >> 1
    ensures a ^ (w << 1) == b ^ (v << 1) ==> a == b && w == v
  {
  }

  lemma {:induction false} BitValueInjective(s: seq<bool>, t: seq<bool>)
    requires |s| == |t| <= 64 && BitValue(s) == BitValue(t)
    ensures s == t
    decreases |s|
  {
    if |s| > 0 {
      RoomAbove(s[1..]);
      RoomAbove(t[1..]);
      RawUnpackBit(BitValue(s[1..]), BitValue(t[1..]), Bit(s[0]), Bit(t[0]));
      BitValueInjective(s[1..], t[1..]);
      assert s == [s[0]] + s[1..] && t == [t[0]] + t[1..];
    }
  }

  // ---- bits and bytes

  /** Up to 64 bits at once: add their number, then step once a bit. */
  lemma {:induction false} BitWindow(k: Kind, c: Register, s: seq<bool>)
    requires |s| <= 64
    ensures AbsorbBits(k, c, s) == Bits(k, Plus(c, BitValue(s)), |s|)
    decreases |s|
  {
    hide Plus, BitStep, Double, Bit;
    Cancel(c);
    if |s| > 0 {
      var b, v := Bit(s[0]), BitValue(s[1..]);
      BitWindow(k, BitStep(k, Plus(c, b)), s[1..]);
      RoomAbove(s[1..]);
      DoubleStep(k, v, 0xFFFF_FFFF_FFFF_FFFF);
      Regroup(c, b, Double(v));
      StepLinear(k, Plus(c, b), Double(v));
    }
  }

  /** The bits of a byte from position i up. */
  function Upper(b: Byte, i: nat): Register
    requires i < 8
  {
    (b >> i) as bv64
  }

  lemma UpperStep0(b: Byte)
    ensures Plus(Bit(BitAt(b, 0)), Double(Upper(b, 1))) == Upper(b, 0)
  {
  }

  lemma UpperStep1(b: Byte)
    ensures Plus(Bit(BitAt(b, 1)), Double(Upper(b, 2))) == Upper(b, 1)
  {
  }

  lemma UpperStep2(b: Byte)
    ensures Plus(Bit(BitAt(b, 2)), Double(Upper(b, 3))) == Upper(b, 2)
  {
  }

  lemma UpperStep3(b: Byte)
    ensures Plus(Bit(BitAt(b, 3)), Double(Upper(b, 4))) == Upper(b, 3)
  {
  }

  lemma UpperStep4(b: Byte)
    ensures Plus(Bit(BitAt(b, 4)), Double(Upper(b, 5))) == Upper(b, 4)
  {
  }

  lemma UpperStep5(b: Byte)
    ensures Plus(Bit(BitAt(b, 5)), Double(Upper(b, 6))) == Upper(b, 5)
  {
  }

  lemma UpperStep6(b: Byte)
    ensures Plus(Bit(BitAt(b, 6)), Double(Upper(b, 7))) == Upper(b, 6)
  {
  }

  lemma UpperLast(b: Byte)
    ensures Plus(Bit(BitAt(b, 7)), Double(0)) == Upper(b, 7) && Upper(b, 0) == Widen(b)
  {
  }

  lemma BitValueStep(s: seq<bool>, i: nat)
    requires i < |s|
    ensures BitValue(s[i..]) == Plus(Bit(s[i]), Double(BitValue(s[i + 1..])))
  {
    hide Plus, Double, Bit;
    assert s[i..][1..] == s[i + 1..];
  }

  lemma UpperStep(b: Byte, i: nat)
    requires i < 7
    ensures Plus(Bit(BitAt(b, i)), Double(Upper(b, i + 1))) == Upper(b, i)
  {
    hide Plus, Double, Bit, BitAt, Upper;
    if i == 0 { UpperStep0(b); }
    if i == 1 { UpperStep1(b); }
    if i == 2 { UpperStep2(b); }
    if i == 3 { UpperStep3(b); }
    if i == 4 { UpperStep4(b); }
    if i == 5 { UpperStep5(b); }
    if i == 6 { UpperStep6(b); }
  }

  lemma ByteBitsAt(b: Byte, i: nat)
    requires i < 8
    ensures ByteBits(b)[i] == BitAt(b, i)
  {
    hide BitAt;
  }

  lemma {:induction false} ByteBitsFrom(b: Byte, i: nat)
    requires i < 8
    ensures BitValue(ByteBits(b)[i..]) == Upper(b, i)
    decreases 8 - i
  {
    hide Plus, Double, Bit, BitAt, Upper, BitValue, ByteBits;
    BitValueStep(ByteBits(b), i);
    ByteBitsAt(b, i);
    if i == 7 {
      UpperLast(b);
      NoBitsValue(ByteBits(b)[8..]);
    } else {
      ByteBitsFrom(b, i + 1);
      UpperStep(b, i);
    }
  }

  lemma ByteBitsValue(b: Byte)
    ensures BitValue(ByteBits(b)) == Widen(b)
  {
    hide ByteBits, BitValue, Upper, Widen;
    ByteBitsFrom(b, 0);
    UpperLast(b);
    assert ByteBits(b)[0..] == ByteBits(b);
  }

  lemma NoBitsValue(s: seq<bool>)
    requires |s| == 0
    ensures BitValue(s) == 0
  {
  }

  lemma {:induction false} AbsorbBitsAppend(k: Kind, c: Register, s: seq<bool>, t: seq<bool>)
    ensures AbsorbBits(k, c, s + t) == AbsorbBits(k, AbsorbBits(k, c, s), t)
    decreases |s|
  {
    hide Plus, BitStep;
    if |s| == 0 {
      assert s + t == t;
    } else {
      assert (s + t)[1..] == s[1..] + t;
      AbsorbBitsAppend(k, BitStep(k, Plus(c, Bit(s[0]))), s[1..], t);
    }
  }

  /** Taking in bytes is taking in their bits. */
  lemma {:induction false} AbsorbIsBits(k: Kind, c: Register, data: seq<Byte>)
    ensures Absorb(k, c, data) == AbsorbBits(k, c, MessageBits(data))
    decreases |data|
  {
    hide Plus, Bits, AbsorbBits, ByteBits, Widen;
    if |data| > 0 {
      BitWindow(k, c, ByteBits(data[0]));
      ByteBitsValue(data[0]);
      AbsorbIsBits(k, ByteStep(k, c, data[0]), data[1..]);
      AbsorbBitsAppend(k, c, ByteBits(data[0]), MessageBits(data[1..]));
    } else {
      NoBitsAbsorbed(k, c);
    }
  }

  lemma NoBitsAbsorbed(k: Kind, c: Register)
    ensures AbsorbBits(k, c, []) == c
  {
  }

  lemma RawWiden(a: Byte, b: Byte)
    ensures a as bv64 == b as bv64 ==> a == b
  {
  }

  lemma {:induction false} SameBits(x: seq<Byte>, y: seq<Byte>)
    requires MessageBits(x) == MessageBits(y)
    ensures x == y
    decreases |x|
  {
    hide ByteBits;
    assert |x| == |y|;
    if |x| > 0 {
      var a, b := ByteBits(x[0]), ByteBits(y[0]);
      assert MessageBits(x)[..8] == a && MessageBits(y)[..8] == b;
      assert MessageBits(x)[8..] == MessageBits(x[1..]) && MessageBits(y)[8..] == MessageBits(y[1..]);
      ByteBitsValue(x[0]);
      ByteBitsValue(y[0]);
      RawWiden(x[0], y[0]);
      SameBits(x[1..], y[1..]);
      assert x == [x[0]] + x[1..] && y == [y[0]] + y[1..];
    }
  }

  // ---- bursts

  lemma {:induction false} AbsorbBitsFits(k: Kind, c: Register, s: seq<bool>)
    requires Fits(k, c)
    ensures Fits(k, AbsorbBits(k, c, s))
    decreases |s|
  {
    hide Plus, BitStep, Fits;
    if |s| > 0 {
      OneBit(k, c, s[0]);
      StepUndone(k, Plus(c, Bit(s[0])));
      AbsorbBitsFits(k, BitStep(k, Plus(c, Bit(s[0]))), s[1..]);
    }
  }

  lemma OneBit(k: Kind, c: Register, b: bool)
    requires Fits(k, c)
    ensures Fits(k, Plus(c, Bit(b)))
  {
    FitsPlus(k, c, Bit(b));
  }

  /** Adding the same number keeps different registers apart. */
  lemma PlusApart(c: Register, d: Register, v: Register)
    requires c != d
    ensures Plus(c, v) != Plus(d, v) && Plus(v, c) != Plus(v, d)
  {
  }

  lemma {:induction false} AbsorbBitsInjective(k: Kind, c: Register, d: Register, s: seq<bool>)
    requires Fits(k, c) && Fits(k, d) && c != d
    ensures AbsorbBits(k, c, s) != AbsorbBits(k, d, s)
    decreases |s|
  {
    hide Plus, BitStep, UnBit, Fits;
    if |s| > 0 {
      var b := Bit(s[0]);
      PlusApart(c, d, b);
      OneBit(k, c, s[0]);
      OneBit(k, d, s[0]);
      StepUndone(k, Plus(c, b));
      StepUndone(k, Plus(d, b));
      AbsorbBitsInjective(k, BitStep(k, Plus(c, b)), BitStep(k, Plus(d, b)), s[1..]);
    }
  }

  /** From the same register, different bits no more than it has give different registers. */
  lemma BitWindowsDiffer(k: Kind, c: Register, u: seq<bool>, v: seq<bool>)
    requires Fits(k, c) && |u| == |v| <= 8 * Width(k) && u != v
    ensures AbsorbBits(k, c, u) != AbsorbBits(k, c, v)
  {
    hide Plus, Bits, UnBits, Fits, BitValue, AbsorbBits;
    BitWindow(k, c, u);
    BitWindow(k, c, v);
    BitValueFits(k, c, u);
    BitValueFits(k, c, v);
    if BitValue(u) == BitValue(v) {
      BitValueInjective(u, v);
    }
    PlusApart(BitValue(u), BitValue(v), c);
    BitsUndone(k, Plus(c, BitValue(u)), |u|);
    BitsUndone(k, Plus(c, BitValue(v)), |u|);
  }

  /**
   Every error confined to as many consecutive bits as the register has is detected, wherever
   in a byte it starts.
   */
  lemma BitBurstDetected(k: Kind, c: Register, x: seq<Byte>, y: seq<Byte>, at: nat, n: nat)
    requires Fits(k, c) && |x| == |y| && x != y && n <= 8 * Width(k) && at + n <= 8 * |x|
    requires MessageBits(x)[..at] == MessageBits(y)[..at] && MessageBits(x)[at + n..] == MessageBits(y)[at + n..]
    ensures Absorb(k, c, x) != Absorb(k, c, y)
  {
    hide Fits, Absorb, AbsorbBits, MessageBits, Width;
    var s, t := MessageBits(x), MessageBits(y);
    var pre, post := s[..at], s[at + n..];
    var u, v := s[at..at + n], t[at..at + n];
    assert s == (pre + u) + post && t == (pre + v) + post;
    if u == v {
      SameBits(x, y);
    }
    AbsorbIsBits(k, c, x);
    AbsorbIsBits(k, c, y);
    AbsorbBitsAppend(k, c, pre + u, post);
    AbsorbBitsAppend(k, c, pre + v, post);
    AbsorbBitsAppend(k, c, pre, u);
    AbsorbBitsAppend(k, c, pre, v);
    var r := AbsorbBits(k, c, pre);
    AbsorbBitsFits(k, c, pre);
    BitWindowsDiffer(k, r, u, v);
    AbsorbBitsFits(k, r, u);
    AbsorbBitsFits(k, r, v);
    AbsorbBitsInjective(k, AbsorbBits(k, r, u), AbsorbBits(k, r, v), post);
  }

  /** So the published checksums differ. */
  lemma ChecksumDetectsBitBurst(k: Kind, x: seq<Byte>, y: seq<Byte>, at: nat, n: nat)
    requires |x| == |y| && x != y && n <= 8 * Width(k) && at + n <= 8 * |x|
    requires MessageBits(x)[..at] == MessageBits(y)[..at] && MessageBits(x)[at + n..] == MessageBits(y)[at + n..]
    ensures Compute(k, x) != Compute(k, y)
  {
    hide Absorb, Plus, MessageBits;
    BitBurstDetected(k, AllOnes(k), x, y, at, n);
    PlusApart(Absorb(k, AllOnes(k), x), Absorb(k, AllOnes(k), y), AllOnes(k));
  }
}
