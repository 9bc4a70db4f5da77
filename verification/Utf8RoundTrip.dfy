/** What strict UTF-8 decoding accepts (section 3.9 of the Unicode Standard): exactly the shortest forms. */
module Utf8RoundTrip {
  import opened Arithmetic
  import opened Bytes
  import opened Unicode
  import opened Utf8

  /** The bytes of a scalar value, as numbers. */
  function Encoded(c: nat): seq<int>
    requires Scalar(c)
  {
    if c < 0x80 then [c]
    else if c < 0x800 then [0xC0 + c / 64, 0x80 + c % 64]
    else if c < 0x1_0000 then [0xE0 + c / 0x1000, 0x80 + c / 64 % 64, 0x80 + c % 64]
    else [0xF0 + c / 0x4_0000, 0x80 + c / 0x1000 % 64, 0x80 + c / 64 % 64, 0x80 + c % 64]
  }

  function Num(b: Byte): nat {
    b as nat
  }

  /** The encoding of c stands at pos. */
  ghost predicate Spells(s: seq<Byte>, pos: nat, c: nat)
    requires Scalar(c)
  {
    var e := Encoded(c);
    pos + |e| <= |s| && forall i :: 0 <= i < |e| ==> Num(s[pos + i]) == e[i]
  }

  // ---- the decoder, in numbers

  predicate Continues(b: Byte) {
    0x80 <= Num(b) < 0xC0
  }

  function Lead(length: nat): nat {
    if length == 2 then 0xC0 else if length == 3 then 0xE0 else 0xF0
  }

  function Room(length: nat): nat {
    if length == 2 then 32 else if length == 3 then 16 else 8
  }

  lemma Ranges(b: Byte)
    ensures b < 0x80 <==> Num(b) < 0x80
    ensures b & 0xE0 == 0xC0 <==> 0xC0 <= Num(b) < 0xE0
    ensures b & 0xF0 == 0xE0 <==> 0xE0 <= Num(b) < 0xF0
    ensures b & 0xF8 == 0xF0 <==> 0xF0 <= Num(b) < 0xF8
    ensures b & 0xC0 == 0x80 <==> 0x80 <= Num(b) < 0xC0
  {
  }

  lemma LowBits(b: Byte)
    ensures 0xC0 <= Num(b) < 0xE0 ==> (b & 0x1F) as nat == Num(b) - 0xC0
    ensures 0xE0 <= Num(b) < 0xF0 ==> (b & 0x0F) as nat == Num(b) - 0xE0
    ensures 0xF0 <= Num(b) < 0xF8 ==> (b & 0x07) as nat == Num(b) - 0xF0
    ensures 0x80 <= Num(b) < 0xC0 ==> (b & 0x3F) as nat == Num(b) - 0x80
  {
  }

  lemma OneByte(b: Byte)
    ensures Announced(b) == 1 <==> Num(b) < 0x80
    ensures Num(b) < 0x80 ==> b as nat == Num(b)
  {
    Ranges(b);
  }

  lemma LeadByte(b: Byte, length: nat)
    requires 2 <= length <= 4
    ensures Announced(b) <= 4
    ensures Announced(b) == length <==> Lead(length) <= Num(b) < Lead(length) + Room(length)
    ensures Announced(b) == length ==> Payload(b, length) == Num(b) - Lead(length)
  {
    hide Num;
    Ranges(b);
    LowBits(b);
  }

  lemma OneMore(s: seq<Byte>, pos: nat, length: nat, k: nat)
    requires 2 <= k <= length && pos + length <= |s|
    ensures var (ok, v) := Accumulated(s, pos, length, k - 1);
            var b := s[pos + k - 1];
            && (Accumulated(s, pos, length, k).0 <==> ok && Continues(b))
            && (Continues(b) ==> Accumulated(s, pos, length, k).1 == 64 * v + (Num(b) - 0x80))
  {
    hide Num;
    Ranges(s[pos + k - 1]);
    LowBits(s[pos + k - 1]);
  }

  /** The value of the first k bytes. */
  function ValueOf(s: seq<Byte>, pos: nat, length: nat, k: nat): int
    requires 1 <= k <= length && pos + length <= |s|
  {
    if k == 1 then Num(s[pos]) - Lead(length) else 64 * ValueOf(s, pos, length, k - 1) + (Num(s[pos + k - 1]) - 0x80)
  }

  predicate AllContinue(s: seq<Byte>, pos: nat, k: nat)
    requires pos + k <= |s|
  {
    forall i :: pos < i < pos + k ==> Continues(s[i])
  }

  lemma {:induction false} AccumulatedValue(s: seq<Byte>, pos: nat, length: nat, k: nat)
    requires 1 <= k <= length && 2 <= length <= 4 && pos + length <= |s| && Announced(s[pos]) == length
    ensures Accumulated(s, pos, length, k).0 <==> AllContinue(s, pos, k)
    ensures AllContinue(s, pos, k) ==> Accumulated(s, pos, length, k).1 == ValueOf(s, pos, length, k)
  {
    hide Announced, Payload, Num, Continues;
    if k == 1 {
      LeadByte(s[pos], length);
    } else {
      AccumulatedValue(s, pos, length, k - 1);
      OneMore(s, pos, length, k);
    }
  }

  lemma UnfoldValue(s: seq<Byte>, pos: nat, length: nat)
    requires 2 <= length <= 4 && pos + length <= |s|
    ensures length == 2 ==> ValueOf(s, pos, 2, 2) == 64 * (Num(s[pos]) - 0xC0) + (Num(s[pos + 1]) - 0x80)
    ensures length == 3 ==>
              ValueOf(s, pos, 3, 3) ==
                  0x1000 * (Num(s[pos]) - 0xE0) + 64 * (Num(s[pos + 1]) - 0x80) + (Num(s[pos + 2]) - 0x80)
    ensures length == 4 ==>
              ValueOf(s, pos, 4, 4) ==
              0x4_0000 * (Num(s[pos]) - 0xF0) + 0x1000 * (Num(s[pos + 1]) - 0x80) + 64 * (Num(s[pos + 2]) - 0x80)
              + (Num(s[pos + 3]) - 0x80)
  {
    hide Num;
    if length == 3 {
      assert ValueOf(s, pos, 3, 2) == 64 * ValueOf(s, pos, 3, 1) + (Num(s[pos + 1]) - 0x80);
    }
    if length == 4 {
      assert ValueOf(s, pos, 4, 2) == 64 * ValueOf(s, pos, 4, 1) + (Num(s[pos + 1]) - 0x80);
      assert ValueOf(s, pos, 4, 3) == 64 * ValueOf(s, pos, 4, 2) + (Num(s[pos + 2]) - 0x80);
    }
  }

  // ---- a code point and its base-64 digits

  lemma EncodedTwo(c: nat, x: nat, y: nat)
    requires 0x80 <= c < 0x800 && y < 64
    ensures Encoded(c) == [0xC0 + x, 0x80 + y] <==> c == 64 * x + y
  {
    if c == 64 * x + y {
      Quotient(c, x, 64, y);
    }
  }

  lemma EncodedThree(c: nat, x: nat, y: nat, z: nat)
    requires 0x800 <= c < 0x1_0000 && Scalar(c) && y < 64 && z < 64
    ensures Encoded(c) == [0xE0 + x, 0x80 + y, 0x80 + z] <==> c == 0x1000 * x + 64 * y + z
  {
    Places(c);
    if c == 0x1000 * x + 64 * y + z {
      Quotient(c, x, 0x1000, 64 * y + z);
      Quotient(c, 64 * x + y, 64, z);
      Quotient(64 * x + y, x, 64, y);
    }
  }

  lemma EncodedFour(c: nat, x: nat, y: nat, z: nat, w: nat)
    requires 0x1_0000 <= c && Scalar(c) && y < 64 && z < 64 && w < 64
    ensures Encoded(c) == [0xF0 + x, 0x80 + y, 0x80 + z, 0x80 + w] <==> c == 0x4_0000 * x + 0x1000 * y + 64 * z + w
  {
    Places(c);
    if c == 0x4_0000 * x + 0x1000 * y + 64 * z + w {
      Quotient(c, 0x1000 * x + 64 * y + z, 64, w);
      Quotient(0x1000 * x + 64 * y + z, 64 * x + y, 64, z);
      Quotient(c, 64 * x + y, 0x1000, 64 * z + w);
      Quotient(64 * x + y, x, 64, y);
      Quotient(c, x, 0x4_0000, 0x1000 * y + 64 * z + w);
    }
  }

  /** A number is the sum of its base-64 digits. */
  lemma Places(c: nat)
    ensures c == 0x1000 * (c / 0x1000) + 64 * (c / 64 % 64) + c % 64
    ensures c / 0x1000 == 64 * (c / 0x4_0000) + c / 0x1000 % 64
  {
    var u := c / 64;
    var v := u / 64;
    Quotient(c, v, 0x1000, 64 * (u % 64) + c % 64);
    Quotient(c, v / 64, 0x4_0000, 0x1000 * (v % 64) + 64 * (u % 64) + c % 64);
  }

  // ---- both directions, one length at a time

  /** A first byte for this length, continuation bytes, and this value. */
  predicate Form(s: seq<Byte>, pos: nat, n: nat, c: nat)
    requires 2 <= n <= 4
  {
    pos + n <= |s| && Announced(s[pos]) == n && AllContinue(s, pos, n) && ValueOf(s, pos, n, n) == c
  }

  lemma EncodedShape(c: nat)
    requires Scalar(c)
    ensures |Encoded(c)| == if c < 0x80 then 1 else if c < 0x800 then 2 else if c < 0x1_0000 then 3 else 4
    ensures 0x80 <= c ==> Lead(|Encoded(c)|) <= Encoded(c)[0] < Lead(|Encoded(c)|) + Room(|Encoded(c)|)
    ensures forall i :: 0 < i < |Encoded(c)| ==> 0x80 <= Encoded(c)[i] < 0xC0
  {
  }

  lemma Explicit(s: seq<Byte>, pos: nat, c: nat)
    requires Scalar(c) && 0x80 <= c && pos + |Encoded(c)| <= |s|
    ensures Spells(s, pos, c) && |Encoded(c)| == 2 <==> [Num(s[pos]), Num(s[pos + 1])] == Encoded(c)
    ensures |Encoded(c)| >= 3 ==>
              (Spells(s, pos, c) && |Encoded(c)| == 3 <==>
               [Num(s[pos]), Num(s[pos + 1]), Num(s[pos + 2])] == Encoded(c))
    ensures |Encoded(c)| >= 4 ==>
              (Spells(s, pos, c) <==> [Num(s[pos]), Num(s[pos + 1]), Num(s[pos + 2]), Num(s[pos + 3])] == Encoded(c))
  {
    hide Num, Encoded;
    EncodedShape(c);
  }

  lemma InForm(s: seq<Byte>, pos: nat, n: nat, c: nat)
    requires 2 <= n <= 4 && pos + n <= |s|
    ensures Form(s, pos, n, c) <==>
            Lead(n) <= Num(s[pos]) < Lead(n) + Room(n) && AllContinue(s, pos, n) && ValueOf(s, pos, n, n) == c
  {
    hide Num, Announced, Payload, AllContinue, ValueOf;
    LeadByte(s[pos], n);
  }

  lemma ContinueEach(s: seq<Byte>, pos: nat, n: nat)
    requires 2 <= n <= 4 && pos + n <= |s|
    ensures AllContinue(s, pos, n) <==>
            Continues(s[pos + 1]) && (n >= 3 ==> Continues(s[pos + 2])) && (n == 4 ==> Continues(s[pos + 3]))
  {
    hide Continues;
  }

  lemma FormTwo(s: seq<Byte>, pos: nat, c: nat)
    requires 0x80 <= c < 0x800 && pos + 2 <= |s|
    ensures |Encoded(c)| == 2 && (Spells(s, pos, c) <==> Form(s, pos, 2, c))
  {
    hide Num, Encoded, ValueOf, Spells, Form, AllContinue;
    EncodedShape(c);
    Explicit(s, pos, c);
    InForm(s, pos, 2, c);
    ContinueEach(s, pos, 2);
    UnfoldValue(s, pos, 2);
    var a, b := Num(s[pos]), Num(s[pos + 1]);
    var shown := [a, b];
    assert shown == Encoded(c) ==> shown[0] == Encoded(c)[0] && shown[1] == Encoded(c)[1];
    if 0xC0 <= a && 0x80 <= b < 0xC0 {
      assert shown == [0xC0 + (a - 0xC0), 0x80 + (b - 0x80)];
      EncodedTwo(c, a - 0xC0, b - 0x80);
    }
  }

  lemma FormThree(s: seq<Byte>, pos: nat, c: nat)
    requires 0x800 <= c < 0x1_0000 && Scalar(c) && pos + 3 <= |s|
    ensures |Encoded(c)| == 3 && (Spells(s, pos, c) <==> Form(s, pos, 3, c))
  {
    hide Num, Encoded, ValueOf, Spells, Form, AllContinue;
    EncodedShape(c);
    Explicit(s, pos, c);
    InForm(s, pos, 3, c);
    ContinueEach(s, pos, 3);
    UnfoldValue(s, pos, 3);
    var a, b, d := Num(s[pos]), Num(s[pos + 1]), Num(s[pos + 2]);
    var shown := [a, b, d];
    assert shown == Encoded(c) ==> shown[0] == Encoded(c)[0] && shown[1] == Encoded(c)[1] && shown[2] == Encoded(c)[2];
    if 0xE0 <= a && 0x80 <= b < 0xC0 && 0x80 <= d < 0xC0 {
      assert shown == [0xE0 + (a - 0xE0), 0x80 + (b - 0x80), 0x80 + (d - 0x80)];
      EncodedThree(c, a - 0xE0, b - 0x80, d - 0x80);
    }
  }

  lemma FormFour(s: seq<Byte>, pos: nat, c: nat)
    requires 0x1_0000 <= c && Scalar(c) && pos + 4 <= |s|
    ensures |Encoded(c)| == 4 && (Spells(s, pos, c) <==> Form(s, pos, 4, c))
  {
    hide Num, Encoded, ValueOf, Spells, Form, AllContinue;
    EncodedShape(c);
    Explicit(s, pos, c);
    InForm(s, pos, 4, c);
    ContinueEach(s, pos, 4);
    UnfoldValue(s, pos, 4);
    var a, b, d, e := Num(s[pos]), Num(s[pos + 1]), Num(s[pos + 2]), Num(s[pos + 3]);
    var shown := [a, b, d, e];
    assert shown == Encoded(c) ==>
           shown[0] == Encoded(c)[0] && shown[1] == Encoded(c)[1] && shown[2] == Encoded(c)[2]
               && shown[3] == Encoded(c)[3];
    if 0xF0 <= a && 0x80 <= b < 0xC0 && 0x80 <= d < 0xC0 && 0x80 <= e < 0xC0 {
      assert shown == [0xF0 + (a - 0xF0), 0x80 + (b - 0x80), 0x80 + (d - 0x80), 0x80 + (e - 0x80)];
      EncodedFour(c, a - 0xF0, b - 0x80, d - 0x80, e - 0x80);
    }
  }

  lemma SpellsIsForm(s: seq<Byte>, pos: nat, c: nat)
    requires Scalar(c) && 0x80 <= c
    ensures 2 <= |Encoded(c)| <= 4 && (Spells(s, pos, c) <==> Form(s, pos, |Encoded(c)|, c))
  {
    hide Num, Encoded, ValueOf, AllContinue;
    EncodedShape(c);
    if pos + |Encoded(c)| <= |s| {
      if c < 0x800 {
        FormTwo(s, pos, c);
      } else if c < 0x1_0000 {
        FormThree(s, pos, c);
      } else {
        FormFour(s, pos, c);
      }
    }
  }

  lemma ValueBound(s: seq<Byte>, pos: nat, n: nat, c: nat)
    requires 2 <= n <= 4 && Form(s, pos, n, c)
    ensures n == 2 ==> c < 0x800
    ensures n == 3 ==> c < 0x1_0000
  {
    hide Num, ValueOf, Announced, Payload;
    LeadByte(s[pos], n);
    UnfoldValue(s, pos, n);
    assert Continues(s[pos + 1]);
  }

  lemma DecodeForm(s: seq<Byte>, pos: nat, n: nat, c: nat)
    requires pos < |s|
    ensures Decode(s, pos) == Valid(n, c) <==>
            (n == 1 && c < 0x80 && Num(s[pos]) == c) ||
            (2 <= n <= 4 && Form(s, pos, n, c) && MinCodePoint(n) <= c && Scalar(c))
  {
    hide Announced, Accumulated, ValueOf, AllContinue;
    OneByte(s[pos]);
    LeadByte(s[pos], 2);
    var m := Announced(s[pos]);
    if 2 <= m && pos + m <= |s| {
      AccumulatedValue(s, pos, m, m);
    }
  }

  /** The decoder accepts exactly the shortest forms of scalar values, and reads them back. */
  lemma DecodesIff(s: seq<Byte>, pos: nat, n: nat, c: nat)
    requires pos < |s|
    ensures Decode(s, pos) == Valid(n, c) <==> Scalar(c) && Spells(s, pos, c) && n == |Encoded(c)|
  {
    hide Decode, Encoded, Form, Num;
    DecodeForm(s, pos, n, c);
    if 2 <= n <= 4 && Form(s, pos, n, c) {
      ValueBound(s, pos, n, c);
    }
    if Scalar(c) {
      EncodedShape(c);
      if c < 0x80 {
        OneSpelled(s, pos, c);
      } else {
        SpellsIsForm(s, pos, c);
      }
    }
  }

  lemma OneSpelled(s: seq<Byte>, pos: nat, c: nat)
    requires c < 0x80 && pos < |s|
    ensures |Encoded(c)| == 1 && (Spells(s, pos, c) <==> Num(s[pos]) == c)
  {
    assert s[pos + 0] == s[pos] && Encoded(c)[0] == c;
  }
}
