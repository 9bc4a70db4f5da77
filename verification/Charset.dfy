/** UTF-16 (section 3.9 of the Unicode Standard) as bytes in either order, as units, and as scalar values. */
module Charset {
  import opened Arithmetic
  import opened Bytes
  import opened Unicode

  predicate Scalars(cs: seq<int>) {
    forall i :: 0 <= i < |cs| ==> Scalar(cs[i])
  }

  predicate Units(us: seq<int>) {
    forall i :: 0 <= i < |us| ==> 0 <= us[i] < 0x1_0000
  }

  /** One unit, or a surrogate pair for what is above the basic plane. */
  function UnitsOf(c: int): seq<int> {
    if c < 0x1_0000 then [c] else [0xD800 + (c - 0x1_0000) / 0x400, 0xDC00 + (c - 0x1_0000) % 0x400]
  }

  function Encoded(cs: seq<int>): seq<int> {
    if |cs| == 0 then [] else UnitsOf(cs[0]) + Encoded(cs[1..])
  }

  predicate High(u: int) {
    0xD800 <= u <= 0xDBFF
  }

  predicate Low(u: int) {
    0xDC00 <= u <= 0xDFFF
  }

  /** Surrogates come in pairs. */
  predicate Paired(us: seq<int>) {
    if |us| == 0 then true
    else if High(us[0]) then |us| >= 2 && Low(us[1]) && Paired(us[2..])
    else !Low(us[0]) && Paired(us[1..])
  }

  function Decoded(us: seq<int>): seq<int>
    requires Paired(us)
  {
    if |us| == 0 then []
    else if High(us[0]) then [0x1_0000 + (us[0] - 0xD800) * 0x400 + (us[1] - 0xDC00)] + Decoded(us[2..])
    else [us[0]] + Decoded(us[1..])
  }

  lemma PairSplits(c: int)
    requires Scalar(c)
    ensures c < 0x1_0000 ==> !High(c) && !Low(c)
    ensures c >= 0x1_0000 ==>
      var h, l := 0xD800 + (c - 0x1_0000) / 0x400, 0xDC00 + (c - 0x1_0000) % 0x400;
      High(h) && Low(l) && 0x1_0000 + (h - 0xD800) * 0x400 + (l - 0xDC00) == c
  {
  }

  /** Encoding scalar values gives paired units, from which they can be read back. */
  lemma {:induction false} DecodeUndoesEncode(cs: seq<int>)
    requires Scalars(cs)
    ensures Units(Encoded(cs)) && Paired(Encoded(cs)) && Decoded(Encoded(cs)) == cs
  {
    hide High, Low;
    if |cs| > 0 {
      DecodeUndoesEncode(cs[1..]);
      PairSplits(cs[0]);
      UnitRange(cs[0]);
      var us := Encoded(cs);
      assert us[|UnitsOf(cs[0])|..] == Encoded(cs[1..]);
    }
  }

  lemma UnitRange(c: int)
    requires Scalar(c)
    ensures Units(UnitsOf(c))
  {
  }

  lemma PairJoins(h: int, l: int)
    requires High(h) && Low(l)
    ensures var c := 0x1_0000 + (h - 0xD800) * 0x400 + (l - 0xDC00); Scalar(c) && UnitsOf(c) == [h, l]
  {
    Quotient((h - 0xD800) * 0x400 + (l - 0xDC00), h - 0xD800, 0x400, l - 0xDC00);
  }

  /** Paired units are the encoding of the scalar values read from them. */
  lemma {:induction false} EncodeUndoesDecode(us: seq<int>)
    requires Units(us) && Paired(us)
    ensures Scalars(Decoded(us)) && Encoded(Decoded(us)) == us
    decreases |us|
  {
    if |us| > 0 {
      var cs := Decoded(us);
      if High(us[0]) {
        PairJoins(us[0], us[1]);
        EncodeUndoesDecode(us[2..]);
        assert cs[1..] == Decoded(us[2..]);
        assert us == [us[0], us[1]] + us[2..];
      } else {
        EncodeUndoesDecode(us[1..]);
        assert cs[1..] == Decoded(us[1..]);
        assert us == [us[0]] + us[1..];
      }
    }
  }

  // ---- bytes

  /** A unit's two bytes, in the given order. */
  function UnitBytes(u: int, littleEndian: bool): string
    requires 0 <= u < 0x1_0000
  {
    var hi, lo := (u / 0x100) as char, (u % 0x100) as char;
    if littleEndian then [lo, hi] else [hi, lo]
  }

  function ToBytes(us: seq<int>, littleEndian: bool): string
    requires Units(us)
  {
    seq(2 * |us|, i requires 0 <= i < 2 * |us| => UnitBytes(us[i / 2], littleEndian)[i % 2])
  }

  function UnitAt(s: string, i: nat, littleEndian: bool): int
    requires i + 1 < |s|
  {
    var b0, b1 := s[i] as int, s[i + 1] as int;
    if littleEndian then b0 + b1 * 0x100 else b0 * 0x100 + b1
  }

  function ToUnits(s: string, littleEndian: bool): seq<int> {
    seq(|s| / 2, i requires 0 <= i < |s| / 2 => UnitAt(s, 2 * i, littleEndian))
  }

  lemma UnitAtBytes(us: seq<int>, i: nat, littleEndian: bool)
    requires Units(us) && i < |us|
    ensures UnitAt(ToBytes(us, littleEndian), 2 * i, littleEndian) == us[i]
  {
    var s := ToBytes(us, littleEndian);
    Quotient(2 * i, i, 2, 0);
    Quotient(2 * i + 1, i, 2, 1);
    assert s[2 * i] == UnitBytes(us[i], littleEndian)[0] && s[2 * i + 1] == UnitBytes(us[i], littleEndian)[1];
  }

  lemma UnitsRoundTrip(us: seq<int>, littleEndian: bool)
    requires Units(us)
    ensures IsBytes(ToBytes(us, littleEndian)) && |ToBytes(us, littleEndian)| == 2 * |us|
    ensures ToUnits(ToBytes(us, littleEndian), littleEndian) == us
  {
    hide UnitAt;
    forall i: nat | i < |us|
      ensures UnitAt(ToBytes(us, littleEndian), 2 * i, littleEndian) == us[i]
    {
      UnitAtBytes(us, i, littleEndian);
    }
  }

  lemma BytesAtUnit(s: string, i: nat, littleEndian: bool)
    requires IsBytes(s) && i + 1 < |s|
    ensures 0 <= UnitAt(s, i, littleEndian) < 0x1_0000
    ensures UnitBytes(UnitAt(s, i, littleEndian), littleEndian) == [s[i], s[i + 1]]
  {
  }

  /** On an even number of bytes, reading units and writing them back loses nothing. */
  lemma BytesRoundTrip(s: string, littleEndian: bool)
    requires IsBytes(s) && |s| % 2 == 0
    ensures Units(ToUnits(s, littleEndian)) && ToBytes(ToUnits(s, littleEndian), littleEndian) == s
  {
    hide UnitAt, UnitBytes;
    var us := ToUnits(s, littleEndian);
    forall i: nat | i < |us|
      ensures 0 <= us[i] < 0x1_0000
    {
      BytesAtUnit(s, 2 * i, littleEndian);
    }
    forall i: nat | i < |s|
      ensures ToBytes(us, littleEndian)[i] == s[i]
    {
      BytesAtUnit(s, 2 * (i / 2), littleEndian);
    }
  }

  /** Some sequence of scalar values has this encoding. */
  ghost predicate WellFormed(s: string, littleEndian: bool) {
    exists cs: seq<int> :: Encodes(cs, s, littleEndian)
  }

  ghost predicate Encodes(cs: seq<int>, s: string, littleEndian: bool) {
    Scalars(cs) && Units(Encoded(cs)) && ToBytes(Encoded(cs), littleEndian) == s
  }

  lemma WellFormedIff(s: string, littleEndian: bool)
    requires IsBytes(s)
    ensures WellFormed(s, littleEndian) <==> |s| % 2 == 0 && Paired(ToUnits(s, littleEndian))
  {
    hide ToBytes, ToUnits, Paired, Encoded, Decoded;
    if WellFormed(s, littleEndian) {
      var cs :| Encodes(cs, s, littleEndian);
      DecodeUndoesEncode(cs);
      UnitsRoundTrip(Encoded(cs), littleEndian);
    }
    if |s| % 2 == 0 && Paired(ToUnits(s, littleEndian)) {
      BytesRoundTrip(s, littleEndian);
      EncodeUndoesDecode(ToUnits(s, littleEndian));
      assert Encodes(Decoded(ToUnits(s, littleEndian)), s, littleEndian);
    }
  }

  /** A byte string encodes at most one sequence of scalar values. */
  lemma EncodesOne(a: seq<int>, b: seq<int>, s: string, littleEndian: bool)
    requires Encodes(a, s, littleEndian) && Encodes(b, s, littleEndian)
    ensures a == b
  {
    hide ToBytes, ToUnits, Paired, Encoded, Decoded;
    DecodeUndoesEncode(a);
    DecodeUndoesEncode(b);
    UnitsRoundTrip(Encoded(a), littleEndian);
    UnitsRoundTrip(Encoded(b), littleEndian);
  }

  lemma PairedStep(us: seq<int>, i: nat)
    requires i < |us|
    ensures Paired(us[i..]) <==>
            if High(us[i]) then i + 1 < |us| && Low(us[i + 1]) && Paired(us[i + 2..])
                else !Low(us[i]) && Paired(us[i + 1..])
  {
    hide High, Low;
    var rest := us[i..];
    assert rest[1..] == us[i + 1..];
    if |rest| >= 2 {
      assert rest[2..] == us[i + 2..];
    }
  }

  method ValidUtf16(utf16: string, littleEndian: bool) returns (ok: bool)
    requires IsBytes(utf16)
    ensures ok <==> WellFormed(utf16, littleEndian)
  {
    hide Paired, UnitAt, WellFormed;
    WellFormedIff(utf16, littleEndian);
    if |utf16| % 2 != 0 {
      return false;
    }
    ghost var us := ToUnits(utf16, littleEndian);
    var units := |utf16| / 2;
    var i := 0;
    assert us[0..] == us;
    while i < units
      invariant 0 <= i <= units && (Paired(us[i..]) <==> Paired(us))
    {
      PairedStep(us, i);
      var unit := UnitAt(utf16, i * 2, littleEndian);
      assert unit == us[i];
      if unit >= 0xD800 && unit <= 0xDBFF {
        if i + 1 >= units {
          return false;
        }
        var low := UnitAt(utf16, (i + 1) * 2, littleEndian);
        assert low == us[i + 1];
        if low < 0xDC00 || low > 0xDFFF {
          return false;
        }
        i := i + 1;
      } else if unit >= 0xDC00 && unit <= 0xDFFF {
        return false;
      }
      i := i + 1;
    }
    PairedNone(us[i..]);
    ok := true;
  }

  lemma PairedNone(us: seq<int>)
    requires |us| == 0
    ensures Paired(us)
  {
  }

  /** The wide characters of an input, into a buffer of half its length. */
  method BytesToWide(input: string, littleEndian: bool) returns (wide: array<int>)
    ensures fresh(wide) && wide[..] == ToUnits(input, littleEndian)
  {
    hide UnitAt;
    var units := |input| / 2;
    wide := new int[units];
    for i := 0 to units
      invariant forall k :: 0 <= k < i ==> wide[k] == UnitAt(input, 2 * k, littleEndian)
    {
      wide[i] := UnitAt(input, i * 2, littleEndian);
    }
  }

  /** Their bytes, into a buffer of twice the length. */
  method WideToBytes(wide: seq<int>, littleEndian: bool) returns (out: array<char>)
    requires Units(wide)
    ensures fresh(out) && out[..] == ToBytes(wide, littleEndian)
  {
    out := new char[|wide| * 2];
    for i := 0 to |wide|
      invariant forall k :: 0 <= k < 2 * i ==> out[k] == UnitBytes(wide[k / 2], littleEndian)[k % 2]
    {
      var hi, lo := (wide[i] / 0x100) as char, (wide[i] % 0x100) as char;
      out[i * 2] := if littleEndian then lo else hi;
      out[i * 2 + 1] := if littleEndian then hi else lo;
    }
  }
}
