/**
 Arithmetic on the CRC shift register, seen as a vector of bits: Plus is addition, and
 one step of the register is a linear, invertible map. The 16-bit register is kept in
 the low bits of the same 64-bit type.
 */
module CrcRegister {
  type Register = bv64

  function Plus(a: Register, b: Register): Register {
    a ^ b
  }

  function Odd(c: Register): bool {
    c & 1 == 1
  }

  function Half(c: Register): Register {
    c >> 1
  }

  datatype Kind = Modbus16 | Xz64

  function Poly(k: Kind): Register {
    if k.Modbus16? then 0xA001 else 0xC96C5795D7870F42
  }

  function AllOnes(k: Kind): Register {
    if k.Modbus16? then 0xFFFF else 0xFFFF_FFFF_FFFF_FFFF
  }

  /** The register's width in bytes. */
  function Width(k: Kind): nat {
    if k.Modbus16? then 2 else 8
  }

  function TopBit(k: Kind): Register {
    if k.Modbus16? then 0x8000 else 0x8000_0000_0000_0000
  }

  /** The value fits the register. */
  predicate Fits(k: Kind, c: Register) {
    c <= AllOnes(k)
  }

  /** One step of the inner loop. */
  function BitStep(k: Kind, c: Register): Register {
    if Odd(c) then Plus(Half(c), Poly(k)) else Half(c)
  }

  /** Undoes a step: the top bit tells whether the polynomial was added. */
  function UnBit(k: Kind, c: Register): Register {
    if c & TopBit(k) != 0 then ((c ^ Poly(k)) << 1) | 1 else c << 1
  }

  function Bits(k: Kind, c: Register, n: nat): Register
    decreases n
  {
    if n == 0 then c else Bits(k, BitStep(k, c), n - 1)
  }

  function UnBits(k: Kind, c: Register, n: nat): Register
    decreases n
  {
    if n == 0 then c else UnBits(k, UnBit(k, c), n - 1)
  }

  // ---- addition

  lemma RawAssoc(a: Register, b: Register, c: Register)
    ensures (a ^ b) ^ c == a ^ (b ^ c)
  {
  }

  lemma Regroup(a: Register, b: Register, c: Register)
    ensures Plus(Plus(a, b), c) == Plus(a, Plus(b, c))
  {
    RawAssoc(a, b, c);
  }

  lemma Commute(a: Register, b: Register)
    ensures Plus(a, b) == Plus(b, a)
  {
  }

  lemma Cancel(a: Register)
    ensures Plus(a, a) == 0 && Plus(a, 0) == a && Plus(0, a) == a
  {
  }

  /** (a + b) + (c + d) == (a + c) + (b + d). */
  lemma Exchange(a: Register, b: Register, c: Register, d: Register)
    ensures Plus(Plus(a, b), Plus(c, d)) == Plus(Plus(a, c), Plus(b, d))
  {
    hide Plus;
    Regroup(a, b, Plus(c, d));
    Regroup(b, c, d);
    Commute(b, c);
    Regroup(c, b, d);
    Regroup(a, c, Plus(b, d));
  }

  // ---- one step

  lemma OddPlus(a: Register, b: Register)
    ensures Odd(Plus(a, b)) <==> Odd(a) != Odd(b)
  {
    LowBits(a, b);
  }

  lemma LowBits(a: Register, b: Register)
    ensures (a ^ b) & 1 == (a & 1) ^ (b & 1)
    ensures (a & 1 == 1 || a & 1 == 0) && (b & 1 == 1 || b & 1 == 0)
  {
  }

  lemma HalfPlus(a: Register, b: Register)
    ensures Half(Plus(a, b)) == Plus(Half(a), Half(b))
  {
  }

  lemma StepLinear(k: Kind, a: Register, b: Register)
    ensures BitStep(k, Plus(a, b)) == Plus(BitStep(k, a), BitStep(k, b))
  {
    hide Plus, Odd, Half, Poly;
    var p := Poly(k);
    OddPlus(a, b);
    HalfPlus(a, b);
    Regroup(Half(a), Half(b), p);
    Exchange(Half(a), p, Half(b), 0);
    Exchange(Half(a), p, Half(b), p);
    Cancel(p);
    Cancel(Half(b));
    Cancel(Plus(Half(a), Half(b)));
  }

  lemma StepUndone(k: Kind, c: Register)
    requires Fits(k, c)
    ensures Fits(k, BitStep(k, c)) && UnBit(k, BitStep(k, c)) == c
  {
    if k.Modbus16? {
      StepUndone16(c);
    } else {
      StepUndone64(c);
    }
  }

  lemma StepReached(k: Kind, c: Register)
    requires Fits(k, c)
    ensures Fits(k, UnBit(k, c)) && BitStep(k, UnBit(k, c)) == c
  {
    hide BitStep, UnBit;
    if k.Modbus16? {
      StepReached16(c);
    } else {
      StepReached64(c);
    }
  }

  lemma StepReached16(c: Register)
    requires Fits(Modbus16, c)
    ensures Fits(Modbus16, UnBit(Modbus16, c)) && BitStep(Modbus16, UnBit(Modbus16, c)) == c
  {
    hide UnBit, BitStep;
    if c & 0x8000 != 0 {
      UnBitOdd16(c);
    } else {
      UnBitEven16(c);
    }
  }

  lemma UnBitOdd16(c: Register)
    requires c <= 0xFFFF && c & 0x8000 != 0
    ensures Fits(Modbus16, UnBit(Modbus16, c)) && BitStep(Modbus16, UnBit(Modbus16, c)) == c
  {
    ReachedByOdd(c);
  }

  lemma UnBitEven16(c: Register)
    requires c <= 0xFFFF && c & 0x8000 == 0
    ensures Fits(Modbus16, UnBit(Modbus16, c)) && BitStep(Modbus16, UnBit(Modbus16, c)) == c
  {
    ReachedByEven(c);
  }

  lemma StepReached64(c: Register)
    ensures Fits(Xz64, UnBit(Xz64, c)) && BitStep(Xz64, UnBit(Xz64, c)) == c
  {
    if c & 0x8000_0000_0000_0000 != 0 {
      ReachedByOdd(c);
    } else {
      ReachedByEven(c);
    }
  }

  lemma ReachedByEven(c: Register)
    ensures c & 0x8000_0000_0000_0000 == 0 ==> (c << 1) & 1 == 0 && (c << 1) >> 1 == c
    ensures c <= 0xFFFF && c & 0x8000 == 0 ==> c << 1 <= 0xFFFF && (c << 1) & 1 == 0 && (c << 1) >> 1 == c
  {
  }

  lemma ReachedByOdd(c: Register)
    ensures (((c ^ 0xC96C5795D7870F42) << 1) | 1) & 1 == 1 && (((c ^ 0xA001) << 1) | 1) & 1 == 1
    ensures c & 0x8000_0000_0000_0000 != 0 ==> ((((c ^ 0xC96C5795D7870F42) << 1) | 1) >> 1) ^ 0xC96C5795D7870F42 == c
    ensures c <= 0xFFFF && c & 0x8000 != 0 ==>
              ((c ^ 0xA001) << 1) | 1 <= 0xFFFF && ((((c ^ 0xA001) << 1) | 1) >> 1) ^ 0xA001 == c
  {
  }

  lemma StepUndone16(c: Register)
    requires c <= 0xFFFF
    ensures var s := if c & 1 == 1 then (c >> 1) ^ 0xA001 else c >> 1;
            s <= 0xFFFF && c == if s & 0x8000 != 0 then ((s ^ 0xA001) << 1) | 1 else s << 1
  {
  }

  lemma StepUndone64(c: Register)
    ensures var s := if c & 1 == 1 then (c >> 1) ^ 0xC96C5795D7870F42 else c >> 1;
            c == if s & 0x8000_0000_0000_0000 != 0 then ((s ^ 0xC96C5795D7870F42) << 1) | 1 else s << 1
  {
  }
}

/** CRC-16/Modbus and CRC-64/XZ over byte strings. */
module Crc {
  import opened CrcRegister
  import opened Bytes

  function Widen(b: Byte): Register {
    b as bv64
  }

  /** The body of the outer loop: one byte into the register. */
  function ByteStep(k: Kind, c: Register, b: Byte): Register {
    Bits(k, Plus(c, Widen(b)), 8)
  }

  /** The register after absorbing data. */
  function Absorb(k: Kind, c: Register, data: seq<Byte>): Register
    decreases |data|
  {
    if |data| == 0 then c else Absorb(k, ByteStep(k, c, data[0]), data[1..])
  }

  function Plussed(x: seq<Byte>, y: seq<Byte>): (r: seq<Byte>)
    requires |x| == |y|
    ensures |r| == |x|
  {
    seq(|x|, i requires 0 <= i < |x| => x[i] ^ y[i])
  }

  function ShiftUp(c: Register): Register {
    c << 8
  }

  /** The bytes read as a little-endian number. */
  function Value(d: seq<Byte>): Register
    decreases |d|
  {
    if |d| == 0 then 0 else Plus(Widen(d[0]), ShiftUp(Value(d[1..])))
  }

  // ---- linear and invertible

  lemma {:induction false} BitsLinear(k: Kind, a: Register, b: Register, n: nat)
    ensures Bits(k, Plus(a, b), n) == Plus(Bits(k, a, n), Bits(k, b, n))
    decreases n
  {
    hide Plus, BitStep;
    if n > 0 {
      StepLinear(k, a, b);
      BitsLinear(k, BitStep(k, a), BitStep(k, b), n - 1);
    }
  }

  lemma {:induction false} BitsCompose(k: Kind, c: Register, m: nat, n: nat)
    ensures Bits(k, c, m + n) == Bits(k, Bits(k, c, m), n)
    decreases m
  {
    hide BitStep;
    if m > 0 {
      BitsCompose(k, BitStep(k, c), m - 1, n);
    }
  }

  lemma {:induction false} BitsUndone(k: Kind, c: Register, n: nat)
    requires Fits(k, c)
    ensures Fits(k, Bits(k, c, n)) && UnBits(k, Bits(k, c, n), n) == c
    decreases n
  {
    hide BitStep, UnBit, Fits;
    if n > 0 {
      StepUndone(k, c);
      BitsUndone(k, BitStep(k, c), n - 1);
      UnBitsLast(k, Bits(k, c, n), n);
    }
  }

  /** And every register value is reached. */
  lemma {:induction false} BitsReached(k: Kind, c: Register, n: nat)
    requires Fits(k, c)
    ensures Fits(k, UnBits(k, c, n)) && Bits(k, UnBits(k, c, n), n) == c
    decreases n
  {
    hide BitStep, UnBit, Fits;
    if n > 0 {
      UnBitsLast(k, c, n);
      StepReached(k, c);
      BitsReached(k, UnBit(k, c), n - 1);
      BitsLast(k, UnBits(k, c, n), n);
    }
  }

  lemma {:induction false} BitsLast(k: Kind, c: Register, n: nat)
    requires n > 0
    ensures Bits(k, c, n) == BitStep(k, Bits(k, c, n - 1))
    decreases n
  {
    hide BitStep;
    if n > 1 {
      BitsLast(k, BitStep(k, c), n - 1);
    }
  }

  lemma {:induction false} UnBitsLast(k: Kind, c: Register, n: nat)
    requires n > 0
    ensures UnBits(k, c, n) == UnBit(k, UnBits(k, c, n - 1))
    decreases n
  {
    hide UnBit;
    if n > 1 {
      UnBitsLast(k, UnBit(k, c), n - 1);
    }
  }

  lemma {:induction false} BitsOfZero(k: Kind, n: nat)
    ensures Bits(k, 0, n) == 0
    decreases n
  {
    if n > 0 {
      StepOfZero(k);
      BitsOfZero(k, n - 1);
    }
  }

  lemma StepOfZero(k: Kind)
    ensures BitStep(k, 0) == 0
  {
  }

  lemma WidenFits(k: Kind, c: Register, b: Byte)
    requires Fits(k, c)
    ensures Fits(k, Plus(c, Widen(b)))
  {
    RawFits(c, b);
  }

  lemma RawFits(c: Register, b: Byte)
    ensures c <= 0xFFFF ==> c ^ (b as bv64) <= 0xFFFF
  {
  }

  lemma WidenPlus(a: Byte, b: Byte)
    ensures Widen(a ^ b) == Plus(Widen(a), Widen(b))
  {
  }

  lemma {:induction false} AbsorbFits(k: Kind, c: Register, data: seq<Byte>)
    requires Fits(k, c)
    ensures Fits(k, Absorb(k, c, data))
    decreases |data|
  {
    hide Fits, Plus, Widen, Bits;
    if |data| > 0 {
      WidenFits(k, c, data[0]);
      BitsUndone(k, Plus(c, Widen(data[0])), 8);
      AbsorbFits(k, ByteStep(k, c, data[0]), data[1..]);
    }
  }

  /** The register is linear in its start value and the data together. */
  lemma {:induction false} AbsorbLinear(k: Kind, c: Register, d: Register, x: seq<Byte>, y: seq<Byte>)
    requires |x| == |y|
    ensures Absorb(k, Plus(c, d), Plussed(x, y)) == Plus(Absorb(k, c, x), Absorb(k, d, y))
    decreases |x|
  {
    hide Plus, Widen, Bits;
    if |x| > 0 {
      var a, b := Widen(x[0]), Widen(y[0]);
      WidenPlus(x[0], y[0]);
      Exchange(c, d, a, b);
      BitsLinear(k, Plus(c, a), Plus(d, b), 8);
      assert Plussed(x, y)[1..] == Plussed(x[1..], y[1..]);
      AbsorbLinear(k, ByteStep(k, c, x[0]), ByteStep(k, d, y[0]), x[1..], y[1..]);
    }
  }

  lemma {:induction false} AbsorbAppend(k: Kind, c: Register, x: seq<Byte>, y: seq<Byte>)
    ensures Absorb(k, c, x + y) == Absorb(k, Absorb(k, c, x), y)
    decreases |x|
  {
    hide ByteStep;
    if |x| > 0 {
      assert (x + y)[1..] == x[1..] + y;
      AbsorbAppend(k, ByteStep(k, c, x[0]), x[1..], y);
    } else {
      assert x + y == y;
    }
  }

  /** Different register values stay different, whatever both absorb next. */
  lemma {:induction false} AbsorbInjective(k: Kind, c: Register, d: Register, data: seq<Byte>)
    requires Fits(k, c) && Fits(k, d) && c != d
    ensures Absorb(k, c, data) != Absorb(k, d, data)
    decreases |data|
  {
    hide Plus, Widen, Bits, UnBits, Fits;
    if |data| > 0 {
      var w := Widen(data[0]);
      WidenFits(k, c, data[0]);
      WidenFits(k, d, data[0]);
      BitsUndone(k, Plus(c, w), 8);
      BitsUndone(k, Plus(d, w), 8);
      if Plus(c, w) == Plus(d, w) {
        Regroup(c, w, w);
        Regroup(d, w, w);
        Cancel(w);
        Cancel(c);
        Cancel(d);
        assert false;
      }
      AbsorbInjective(k, ByteStep(k, c, data[0]), ByteStep(k, d, data[0]), data[1..]);
    }
  }

  // ---- a register's width of bytes at once

  function Double(c: Register): Register {
    c << 1
  }

  lemma RawDouble(c: Register, limit: Register)
    requires c <= limit >> 1
    ensures c << 1 <= limit && (c << 1) >> 1 == c && (c << 1) & 1 == 0
  {
  }

  /** Doubling a number with room for it adds a zero bit, which one step takes off again. */
  lemma DoubleStep(k: Kind, c: Register, limit: Register)
    requires c <= limit >> 1
    ensures Double(c) <= limit && BitStep(k, Double(c)) == c
  {
    RawDouble(c, limit);
  }

  lemma EightDoubles(v: Register)
    ensures ShiftUp(v) == Double(Double(Double(Double(Double(Double(Double(Double(v))))))))
  {
  }

  lemma {:induction false} StepChain(k: Kind, s: seq<Register>)
    requires |s| > 0 && forall i :: 0 < i < |s| ==> BitStep(k, s[i]) == s[i - 1]
    ensures Bits(k, s[|s| - 1], |s| - 1) == s[0]
    decreases |s|
  {
    hide BitStep;
    if |s| > 1 {
      StepChain(k, s[..|s| - 1]);
    }
  }

  /** Eight steps bring a number shifted up by a byte back: its low bits are all zero. */
  lemma ShiftBack(k: Kind, v: Register)
    requires Within(v, 7)
    ensures Bits(k, ShiftUp(v), 8) == v
  {
    hide BitStep, Bits, Double, ShiftUp;
    EightDoubles(v);
    var v1 := Double(v);
    DoubleStep(k, v, 0x1FF_FFFF_FFFF_FFFF);
    var v2 := Double(v1);
    DoubleStep(k, v1, 0x3FF_FFFF_FFFF_FFFF);
    var v3 := Double(v2);
    DoubleStep(k, v2, 0x7FF_FFFF_FFFF_FFFF);
    var v4 := Double(v3);
    DoubleStep(k, v3, 0xFFF_FFFF_FFFF_FFFF);
    var v5 := Double(v4);
    DoubleStep(k, v4, 0x1FFF_FFFF_FFFF_FFFF);
    var v6 := Double(v5);
    DoubleStep(k, v5, 0x3FFF_FFFF_FFFF_FFFF);
    var v7 := Double(v6);
    DoubleStep(k, v6, 0x7FFF_FFFF_FFFF_FFFF);
    var v8 := Double(v7);
    DoubleStep(k, v7, 0xFFFF_FFFF_FFFF_FFFF);
    StepChain(k, [v, v1, v2, v3, v4, v5, v6, v7, v8]);
  }

  /** The number fits n bytes. */
  predicate Within(v: Register, n: nat)
    requires n <= 8
  {
    v <= if n == 0 then 0 else if n == 1 then 0xFF else if n == 2 then 0xFFFF else if n == 3 then 0xFF_FFFF
         else if n == 4 then 0xFFFF_FFFF else if n == 5 then 0xFF_FFFF_FFFF else if n == 6 then 0xFFFF_FFFF_FFFF
         else if n == 7 then 0xFF_FFFF_FFFF_FFFF else 0xFFFF_FFFF_FFFF_FFFF
  }

  lemma RawPack(w: Byte, v: Register)
    ensures v <= 0 ==> (w as bv64) ^ (v << 8) <= 0xFF
    ensures v <= 0xFF ==> (w as bv64) ^ (v << 8) <= 0xFFFF
    ensures v <= 0xFFFF ==> (w as bv64) ^ (v << 8) <= 0xFF_FFFF
    ensures v <= 0xFF_FFFF ==> (w as bv64) ^ (v << 8) <= 0xFFFF_FFFF
    ensures v <= 0xFFFF_FFFF ==> (w as bv64) ^ (v << 8) <= 0xFF_FFFF_FFFF
    ensures v <= 0xFF_FFFF_FFFF ==> (w as bv64) ^ (v << 8) <= 0xFFFF_FFFF_FFFF
    ensures v <= 0xFFFF_FFFF_FFFF ==> (w as bv64) ^ (v << 8) <= 0xFF_FFFF_FFFF_FFFF
  {
  }

  lemma PackBound(w: Byte, v: Register, n: nat)
    requires n < 8 && Within(v, n)
    ensures Within(Plus(Widen(w), ShiftUp(v)), n + 1)
  {
    RawPack(w, v);
  }

  lemma RawUnpack(w: Byte, v: Register)
    requires v <= 0xFF_FFFF_FFFF_FFFF
    ensures ((((w as bv64) ^ (v << 8)) & 0xFF) as bv8) == w
    ensures ((w as bv64) ^ (v << 8)) >> 8 == v
  {
  }

  function LowByte(c: Register): Byte {
    (c & 0xFF) as bv8
  }

  function ShiftDown(c: Register): Register {
    c >> 8
  }

  lemma Unpack(w: Byte, v: Register)
    requires Within(v, 7)
    ensures LowByte(Plus(Widen(w), ShiftUp(v))) == w
    ensures ShiftDown(Plus(Widen(w), ShiftUp(v))) == v
  {
    RawUnpack(w, v);
  }

  lemma WithinGrows(v: Register, n: nat)
    requires n <= 7 && Within(v, n)
    ensures Within(v, 7)
  {
  }

  lemma {:induction false} ValueBound(d: seq<Byte>)
    requires |d| <= 8
    ensures Within(Value(d), |d|)
    ensures |d| <= 7 ==> Within(Value(d), 7)
    decreases |d|
  {
    hide Plus, Widen, ShiftUp, Within;
    if |d| > 0 {
      ValueBound(d[1..]);
      PackBound(d[0], Value(d[1..]), |d| - 1);
    } else {
      ZeroWithin(Value(d));
    }
    if |d| <= 7 {
      WithinGrows(Value(d), |d|);
    }
  }

  lemma ZeroWithin(c: Register)
    ensures Within(c, 0) <==> c == 0
  {
  }

  lemma {:induction false} ValueInjective(d: seq<Byte>, e: seq<Byte>)
    requires |d| == |e| <= 8 && Value(d) == Value(e)
    ensures d == e
    decreases |d|
  {
    hide Plus, Widen, ShiftUp, Within, LowByte, ShiftDown;
    if |d| > 0 {
      ValueBound(d[1..]);
      ValueBound(e[1..]);
      Unpack(d[0], Value(d[1..]));
      Unpack(e[0], Value(e[1..]));
      ValueInjective(d[1..], e[1..]);
      assert d == [d[0]] + d[1..] && e == [e[0]] + e[1..];
    }
  }

  /** Up to eight bytes at once: add their little-endian value, then step once a bit. */
  lemma {:induction false} AbsorbWindow(k: Kind, c: Register, d: seq<Byte>)
    requires |d| <= 8
    ensures Absorb(k, c, d) == Bits(k, Plus(c, Value(d)), 8 * |d|)
    decreases |d|
  {
    hide Plus, Widen, ShiftUp, Bits, Within;
    if |d| > 0 {
      var w, v := Widen(d[0]), Value(d[1..]);
      ValueBound(d[1..]);
      AbsorbWindow(k, ByteStep(k, c, d[0]), d[1..]);
      ShiftBack(k, v);
      BitsLinear(k, Plus(c, w), ShiftUp(v), 8);
      Regroup(c, w, ShiftUp(v));
      BitsCompose(k, Plus(c, Value(d)), 8, 8 * |d| - 8);
    } else {
      Cancel(c);
      NoBits(k, c);
    }
  }

  lemma NoBits(k: Kind, c: Register)
    ensures Bits(k, c, 0) == c
  {
  }

  lemma PlusFits(k: Kind, c: Register, v: Register)
    requires Fits(k, c) && Within(v, Width(k))
    ensures Fits(k, Plus(c, v))
  {
    RawPlusFits(c, v);
  }

  lemma RawPlusFits(c: Register, v: Register)
    ensures c <= 0xFFFF && v <= 0xFFFF ==> c ^ v <= 0xFFFF
    ensures c <= 0xFFFF_FFFF_FFFF_FFFF
  {
  }

  lemma WithinWidth(k: Kind, v: Register, n: nat)
    requires n <= Width(k) && Within(v, n)
    ensures Within(v, Width(k))
  {
  }

  /** From the same register, different windows no wider than the register give different registers. */
  lemma WindowsDiffer(k: Kind, c: Register, u: seq<Byte>, v: seq<Byte>)
    requires Fits(k, c) && |u| == |v| <= Width(k) && u != v
    ensures Absorb(k, c, u) != Absorb(k, c, v)
  {
    hide Plus, Bits, UnBits, Fits, Within, Value, Absorb;
    var a, b := Plus(c, Value(u)), Plus(c, Value(v));
    AbsorbWindow(k, c, u);
    AbsorbWindow(k, c, v);
    ValueBound(u);
    ValueBound(v);
    WithinWidth(k, Value(u), |u|);
    WithinWidth(k, Value(v), |v|);
    PlusFits(k, c, Value(u));
    PlusFits(k, c, Value(v));
    BitsUndone(k, a, 8 * |u|);
    BitsUndone(k, b, 8 * |u|);
    if a == b {
      Commute(c, Value(u));
      Commute(c, Value(v));
      Regroup(Value(u), c, c);
      Regroup(Value(v), c, c);
      Cancel(c);
      Cancel(Value(u));
      Cancel(Value(v));
      ValueInjective(u, v);
    }
  }

  /** Every error confined to as many consecutive bytes as the register has is detected. */
  lemma BurstDetected(k: Kind, c: Register, x: seq<Byte>, y: seq<Byte>, at: nat, n: nat)
    requires Fits(k, c) && |x| == |y| && at + n <= |x| && n <= Width(k)
    requires x[..at] == y[..at] && x[at + n..] == y[at + n..] && x != y
    ensures Absorb(k, c, x) != Absorb(k, c, y)
  {
    hide Fits, Absorb;
    var pre, post := x[..at], x[at + n..];
    var u, v := x[at..at + n], y[at..at + n];
    assert x == (pre + u) + post && y == (pre + v) + post;
    AbsorbAppend(k, c, pre + u, post);
    AbsorbAppend(k, c, pre + v, post);
    AbsorbAppend(k, c, pre, u);
    AbsorbAppend(k, c, pre, v);
    var r := Absorb(k, c, pre);
    AbsorbFits(k, c, pre);
    WindowsDiffer(k, r, u, v);
    AbsorbFits(k, r, u);
    AbsorbFits(k, r, v);
    AbsorbInjective(k, Absorb(k, r, u), Absorb(k, r, v), post);
  }

  /** The register's bytes, low one first. */
  function LowBytes(c: Register, n: nat): (d: seq<Byte>)
    ensures |d| == n
    decreases n
  {
    if n == 0 then [] else [LowByte(c)] + LowBytes(ShiftDown(c), n - 1)
  }

  lemma RawByte(c: Register)
    ensures ((c & 0xFF) as bv8) as bv64 ^ ((c >> 8) << 8) == c
    ensures c <= 0xFFFF ==> c >> 8 <= 0xFF
    ensures c <= 0xFF ==> c >> 8 <= 0
    ensures c <= 0xFF_FFFF ==> c >> 8 <= 0xFFFF
    ensures c <= 0xFFFF_FFFF ==> c >> 8 <= 0xFF_FFFF
    ensures c <= 0xFF_FFFF_FFFF ==> c >> 8 <= 0xFFFF_FFFF
    ensures c <= 0xFFFF_FFFF_FFFF ==> c >> 8 <= 0xFF_FFFF_FFFF
    ensures c <= 0xFF_FFFF_FFFF_FFFF ==> c >> 8 <= 0xFFFF_FFFF_FFFF
    ensures c <= 0xFFFF_FFFF_FFFF_FFFF ==> c >> 8 <= 0xFF_FFFF_FFFF_FFFF
  {
  }

  lemma ShiftDownWithin(c: Register, n: nat)
    requires 0 < n <= 8 && Within(c, n)
    ensures Within(ShiftDown(c), n - 1)
  {
    RawByte(c);
  }

  lemma SplitByte(c: Register)
    ensures Plus(Widen(LowByte(c)), ShiftUp(ShiftDown(c))) == c
  {
    RawByte(c);
  }

  lemma {:induction false} LowBytesValue(c: Register, n: nat)
    requires n <= 8 && Within(c, n)
    ensures Value(LowBytes(c, n)) == c
    decreases n
  {
    hide Plus, Widen, ShiftUp, LowByte, ShiftDown, Within;
    if n > 0 {
      ShiftDownWithin(c, n);
      SplitByte(c);
      LowBytesValue(ShiftDown(c), n - 1);
    } else {
      ZeroWithin(c);
    }
  }

  /** A Modbus frame that carries its own CRC, low byte first, leaves the register at zero. */
  lemma ModbusFrame(c: Register)
    requires Fits(Modbus16, c)
    ensures Absorb(Modbus16, c, LowBytes(c, 2)) == 0
  {
    hide Plus, Bits, Absorb, LowBytes;
    LowBytesValue(c, 2);
    AbsorbWindow(Modbus16, c, LowBytes(c, 2));
    Cancel(c);
    BitsOfZero(Modbus16, 16);
  }

  /** A frame that carries its CRC-64, low byte first, leaves the same register whatever it said. */
  lemma Xz64Frame(c: Register)
    ensures Absorb(Xz64, c, LowBytes(Plus(c, AllOnes(Xz64)), 8)) == Bits(Xz64, AllOnes(Xz64), 64)
  {
    hide Plus, Bits, Absorb, LowBytes;
    var ones := AllOnes(Xz64);
    var out := Plus(c, ones);
    WithinEight(out);
    LowBytesValue(out, 8);
    AbsorbWindow(Xz64, c, LowBytes(out, 8));
    Regroup(c, c, ones);
    Cancel(c);
    Cancel(ones);
  }

  lemma WithinEight(c: Register)
    ensures Within(c, 8)
  {
  }

  // ---- the loops

  /** crc16_update and crc64_update: the same two loops over different registers. */
  method UpdateRegister(k: Kind, crc: Register, data: seq<Byte>) returns (r: Register)
    ensures r == Absorb(k, crc, data)
  {
    hide Odd, Half, Plus, Poly, Widen;
    r := crc;
    for i := 0 to |data|
      invariant Absorb(k, r, data[i..]) == Absorb(k, crc, data)
    {
      ghost var before := r;
      r := Plus(r, Widen(data[i]));
      ghost var start := r;
      for bit := 0 to 8
        invariant Bits(k, r, 8 - bit) == Bits(k, start, 8)
      {
        if Odd(r) {
          r := Plus(Half(r), Poly(k));
        } else {
          r := Half(r);
        }
      }
      assert data[i..][1..] == data[i + 1..];
    }
  }

  /** Crc16Modbus and Crc64: the streaming checksums. */
  class Checksum {
    const kind: Kind
    var register: Register

    /** Everything absorbed since the last reset. */
    ghost var message: seq<Byte>

    ghost predicate Valid()
      reads this
    {
      register == Absorb(kind, AllOnes(kind), message)
    }

    constructor (kind: Kind)
      ensures Valid() && this.kind == kind && message == []
    {
      this.kind := kind;
      register := AllOnes(kind);
      message := [];
    }

    method Reset()
      modifies this
      ensures Valid() && message == []
    {
      register := AllOnes(kind);
      message := [];
    }

    method Update(data: seq<Byte>)
      requires Valid()
      modifies this
      ensures Valid() && message == old(message) + data
    {
      AbsorbAppend(kind, AllOnes(kind), message, data);
      register := UpdateRegister(kind, register, data);
      message := message + data;
    }

    /** CRC-64/XZ inverts the register on output, CRC-16/Modbus does not. */
    function Current(): (crc: Register)
      requires Valid()
      reads this
      ensures crc == Compute(kind, message)
    {
      if kind.Xz64? then Plus(register, AllOnes(kind)) else register
    }
  }

  /** The checksum of a whole message. */
  function Compute(k: Kind, message: seq<Byte>): Register {
    var r := Absorb(k, AllOnes(k), message);
    if k.Xz64? then Plus(r, AllOnes(k)) else r
  }

  /** So the published checksums differ as well. */
  lemma ChecksumDetectsBurst(k: Kind, x: seq<Byte>, y: seq<Byte>, at: nat, n: nat)
    requires |x| == |y| && at + n <= |x| && n <= Width(k)
    requires x[..at] == y[..at] && x[at + n..] == y[at + n..] && x != y
    ensures Compute(k, x) != Compute(k, y)
  {
    hide Absorb, Plus;
    var ones := AllOnes(k);
    BurstDetected(k, ones, x, y, at, n);
    var r, t := Absorb(k, ones, x), Absorb(k, ones, y);
    Regroup(r, ones, ones);
    Regroup(t, ones, ones);
    Cancel(ones);
    Cancel(r);
    Cancel(t);
  }
}
