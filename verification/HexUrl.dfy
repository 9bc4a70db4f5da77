/** Hexadecimal text (section 8 of RFC 4648, either case when decoding). */
module Hex {
  import opened Bytes

  function Digit(v: nat, lower: bool): char
    requires v < 16
  {
    if v < 10 then (48 + v) as char else if lower then (87 + v) as char else (55 + v) as char
  }

  function HexValue(c: char): int {
    if '0' <= c <= '9' then c as int - 48
    else if 'a' <= c <= 'f' then c as int - 87
    else if 'A' <= c <= 'F' then c as int - 55
    else -1
  }

  lemma DigitValue(v: nat, lower: bool)
    requires v < 16
    ensures HexValue(Digit(v, lower)) == v && (Digit(v, lower) as int) < 256
  {
  }

  function Fold(c: char): char {
    if 'A' <= c <= 'F' then (c as int + 32) as char else c
  }

  lemma ValueDigit(c: char)
    ensures -1 <= HexValue(c) < 16
    ensures HexValue(c) >= 0 ==> Digit(HexValue(c), true) == Fold(c)
  {
  }

  function Nibble(x: string, i: nat): nat
    requires i < 2 * |x|
  {
    if i % 2 == 0 then x[i / 2] as int / 16 else x[i / 2] as int % 16
  }

  lemma NibblesOf(x: string, k: nat)
    requires k < |x|
    ensures Nibble(x, 2 * k) == x[k] as int / 16 && Nibble(x, 2 * k + 1) == x[k] as int % 16
  {
  }

  lemma NibbleRange(x: string, i: nat)
    requires IsBytes(x) && i < 2 * |x|
    ensures Nibble(x, i) < 16
  {
  }

  /** Two digits a byte, the high half first. */
  function Encoded(x: string, lower: bool): string
    requires IsBytes(x)
  {
    seq(2 * |x|, i requires 0 <= i < 2 * |x| => NibbleRange(x, i); Digit(Nibble(x, i), lower))
  }

  predicate Accepted(t: string) {
    |t| % 2 == 0 && forall i :: 0 <= i < |t| ==> HexValue(t[i]) >= 0
  }

  function OctetAt(t: string, k: nat): nat
    requires Accepted(t) && 2 * k + 1 < |t|
  {
    HexValue(t[2 * k]) * 16 + HexValue(t[2 * k + 1])
  }

  lemma OctetRange(t: string, k: nat)
    requires Accepted(t) && 2 * k + 1 < |t|
    ensures OctetAt(t, k) < 256
  {
    ValueDigit(t[2 * k]);
    ValueDigit(t[2 * k + 1]);
  }

  function Decoded(t: string): string
    requires Accepted(t)
  {
    seq(|t| / 2, k requires 0 <= k < |t| / 2 => OctetRange(t, k); OctetAt(t, k) as char)
  }

  function Folded(t: string): string {
    seq(|t|, i requires 0 <= i < |t| => Fold(t[i]))
  }

  /** Decoding undoes encoding, in either case. */
  lemma DecodeUndoesEncode(x: string, lower: bool)
    requires IsBytes(x)
    ensures Accepted(Encoded(x, lower)) && Decoded(Encoded(x, lower)) == x
  {
    hide HexValue, Digit, Nibble;
    var t := Encoded(x, lower);
    forall i: nat | i < |t|
      ensures HexValue(t[i]) == Nibble(x, i)
    {
      NibbleRange(x, i);
      DigitValue(Nibble(x, i), lower);
    }
    assert Accepted(t);
    forall k | 0 <= k < |x|
      ensures Decoded(t)[k] == x[k]
    {
      NibblesOf(x, k);
      OctetRange(t, k);
      assert OctetAt(t, k) == x[k] as int;
    }
  }

  /** Encoding what an accepted text decodes to gives the text back, in lower case. */
  lemma EncodeUndoesDecode(t: string)
    requires Accepted(t)
    ensures IsBytes(Decoded(t)) && Encoded(Decoded(t), true) == Folded(t)
  {
    hide HexValue, Digit, Nibble, OctetAt;
    var x := Decoded(t);
    forall k | 0 <= k < |x|
      ensures x[k] as int == OctetAt(t, k) < 256
    {
      OctetRange(t, k);
    }
    forall i: nat | i < |t|
      ensures Encoded(x, true)[i] == Fold(t[i])
    {
      NibbleBack(t, i);
      NibbleRange(x, i);
      ValueDigit(t[i]);
    }
  }

  lemma NibbleBack(t: string, i: nat)
    requires Accepted(t) && i < |t|
    ensures Nibble(Decoded(t), i) == HexValue(t[i])
  {
    hide HexValue;
    var k := i / 2;
    OctetRange(t, k);
    ValueDigit(t[2 * k]);
    ValueDigit(t[2 * k + 1]);
    NibblesOf(Decoded(t), k);
    assert Decoded(t)[k] as int == OctetAt(t, k);
    assert i == 2 * k || i == 2 * k + 1;
  }

  method Encode(raw: string, lower: bool) returns (out: string)
    requires IsBytes(raw)
    ensures out == Encoded(raw, lower)
  {
    hide Digit, Nibble;
    out := "";
    for i := 0 to |raw|
      invariant |out| == 2 * i
      invariant forall j :: 0 <= j < |out| ==> Nibble(raw, j) < 16 && out[j] == Digit(Nibble(raw, j), lower)
    {
      NibblesOf(raw, i);
      out := out + [Digit(raw[i] as int / 16, lower)];
      out := out + [Digit(raw[i] as int % 16, lower)];
    }
    assert |out| == |Encoded(raw, lower)|;
  }

  method Decode(text: string) returns (ok: bool, out: string)
    ensures ok <==> Accepted(text)
    ensures ok ==> out == Decoded(text)
  {
    hide HexValue;
    out := "";
    if |text| % 2 != 0 {
      return false, out;
    }
    var i := 0;
    while i < |text|
      invariant 0 <= i <= |text| && i == 2 * |out|
      invariant forall j :: 0 <= j < i ==> HexValue(text[j]) >= 0
      invariant forall k :: 0 <= k < |out| ==> out[k] as int == HexValue(text[2 * k]) * 16 + HexValue(text[2 * k + 1])
    {
      var hi, lo := HexValue(text[i]), HexValue(text[i + 1]);
      ValueDigit(text[i]);
      ValueDigit(text[i + 1]);
      if hi < 0 || lo < 0 {
        return false, out;
      }
      out := out + [(hi * 16 + lo) as char];
      i := i + 2;
    }
    ok := true;
  }
}

/** Form encoding of a byte string, and its forgiving decoder. */
module UrlEncode {
  import opened Bytes
  import opened Hex

  predicate Unreserved(c: char) {
    'A' <= c <= 'Z' || 'a' <= c <= 'z' || '0' <= c <= '9' || c == '-' || c == '_' || c == '.' || c == '~'
  }

  function Spelled(c: char): string
    requires c as int < 256
  {
    if c == ' ' then "+"
    else if Unreserved(c) then [c]
    else ['%', Digit(c as int / 16, false), Digit(c as int % 16, false)]
  }

  function UrlEncoded(x: string): string
    requires IsBytes(x)
  {
    if |x| == 0 then "" else Spelled(x[0]) + UrlEncoded(x[1..])
  }

  predicate Escape(t: string) {
    |t| >= 3 && t[0] == '%' && HexValue(t[1]) >= 0 && HexValue(t[2]) >= 0
  }

  /** An escape is a byte; a '%' that starts none is kept as it is. */
  function UrlDecoded(t: string): string {
    if |t| == 0 then ""
    else if t[0] == '+' then " " + UrlDecoded(t[1..])
    else if Escape(t) then ValueDigit(t[1]); ValueDigit(t[2]);
        [(HexValue(t[1]) * 16 + HexValue(t[2])) as char] + UrlDecoded(t[3..])
    else [t[0]] + UrlDecoded(t[1..])
  }

  lemma SpelledDecodes(c: char, rest: string)
    requires c as int < 256
    ensures UrlDecoded(Spelled(c) + rest) == [c] + UrlDecoded(rest)
  {
    var t := Spelled(c) + rest;
    if c == ' ' || Unreserved(c) {
      assert t[1..] == rest;
    } else {
      DigitValue(c as int / 16, false);
      DigitValue(c as int % 16, false);
      assert t[3..] == rest;
      assert Escape(t);
    }
  }

  /** Decoding undoes encoding, for every byte string. */
  lemma {:induction false} UrlDecodeUndoesEncode(x: string)
    requires IsBytes(x)
    ensures UrlDecoded(UrlEncoded(x)) == x
  {
    hide UrlDecoded, Spelled;
    if |x| == 0 {
      assert UrlDecoded("") == "" by { NothingDecodes(); }
    } else {
      UrlDecodeUndoesEncode(x[1..]);
      SpelledDecodes(x[0], UrlEncoded(x[1..]));
    }
  }

  lemma NothingDecodes()
    ensures UrlDecoded("") == ""
  {
  }

  lemma EncodeMore(raw: string, i: nat, out: string)
    requires IsBytes(raw) && i < |raw|
    ensures out + UrlEncoded(raw[i..]) == (out + Spelled(raw[i])) + UrlEncoded(raw[i + 1..])
  {
    hide Spelled;
    assert raw[i..][1..] == raw[i + 1..];
  }

  method Encode(raw: string) returns (out: string)
    requires IsBytes(raw)
    ensures out == UrlEncoded(raw)
  {
    hide Digit, UrlEncoded;
    out := "";
    var i := 0;
    assert raw[0..] == raw;
    while i < |raw|
      invariant 0 <= i <= |raw|
      invariant out + UrlEncoded(raw[i..]) == UrlEncoded(raw)
    {
      var c := raw[i];
      EncodeMore(raw, i, out);
      ghost var more := out + Spelled(c);
      if c == ' ' {
        out := out + "+";
      } else if Unreserved(c) {
        out := out + [c];
      } else {
        out := out + "%";
        out := out + [Digit(c as int / 16, false)];
        out := out + [Digit(c as int % 16, false)];
      }
      assert out == more;
      i := i + 1;
    }
    EncodeEnd(raw, out);
  }

  lemma EncodeEnd(raw: string, out: string)
    requires IsBytes(raw)
    ensures out + UrlEncoded(raw[|raw|..]) == out
  {
  }

  /** What the decoder takes next, and how far it moves. */
  lemma DecodeMore(text: string, i: nat, out: string)
    requires i < |text|
    ensures text[i] == '+' ==> out + UrlDecoded(text[i..]) == (out + " ") + UrlDecoded(text[i + 1..])
    ensures text[i] != '+' && !Escape(text[i..]) ==>
            out + UrlDecoded(text[i..]) == (out + [text[i]]) + UrlDecoded(text[i + 1..])
    ensures text[i] != '+' && Escape(text[i..]) ==>
      var v := HexValue(text[i + 1]) * 16 + HexValue(text[i + 2]);
      0 <= v < 256 && out + UrlDecoded(text[i..]) == (out + [v as char]) + UrlDecoded(text[i + 3..])
  {
    hide HexValue;
    var rest := text[i..];
    assert rest[1..] == text[i + 1..];
    if Escape(rest) {
      assert rest[3..] == text[i + 3..];
      ValueDigit(text[i + 1]);
      ValueDigit(text[i + 2]);
    }
  }

  method Decode(text: string) returns (out: string)
    ensures out == UrlDecoded(text)
  {
    hide HexValue, UrlDecoded;
    out := "";
    var i := 0;
    assert text[0..] == text;
    while i < |text|
      invariant 0 <= i <= |text|
      invariant out + UrlDecoded(text[i..]) == UrlDecoded(text)
    {
      DecodeMore(text, i, out);
      if text[i] == '+' {
        out := out + " ";
      } else if text[i] == '%' && i + 2 < |text| && HexValue(text[i + 1]) >= 0 && HexValue(text[i + 2]) >= 0 {
        out := out + [(HexValue(text[i + 1]) * 16 + HexValue(text[i + 2])) as char];
        i := i + 2;
      } else {
        out := out + [text[i]];
      }
      i := i + 1;
    }
    DecodeEnd(text, out);
  }

  lemma DecodeEnd(text: string, out: string)
    ensures out + UrlDecoded(text[|text|..]) == out
  {
  }
}
