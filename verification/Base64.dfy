/**
 Base64 (section 4 of RFC 4648): what the encoding of a byte string is, letter by letter,
 and that nothing else decodes.
 */
module Base64Spec {
  import opened Arithmetic
  import opened Bytes

  function Letter(v: nat): char
    requires v < 64
  {
    if v < 26 then (65 + v) as char
    else if v < 52 then (71 + v) as char
    else if v < 62 then (v - 4) as char
    else if v == 62 then '+' else '/'
  }

  /** A letter's value, or -1. */
  function Value(c: char): int {
    if 'A' <= c <= 'Z' then c as int - 65
    else if 'a' <= c <= 'z' then c as int - 71
    else if '0' <= c <= '9' then c as int + 4
    else if c == '+' then 62
    else if c == '/' then 63
    else -1
  }

  lemma LetterValue(v: nat)
    requires v < 64
    ensures Value(Letter(v)) == v && Letter(v) != '='
  {
  }

  lemma ValueLetter(c: char)
    ensures -1 <= Value(c) < 64
    ensures Value(c) >= 0 ==> Letter(Value(c)) == c && c != '='
  {
  }

  // ---- bytes to sextets and back

  function At(x: string, k: nat): int {
    if k < |x| then x[k] as int else 0
  }

  /** Bits 6j to 6j + 5 of a byte string continued with zeros. */
  function Sextet(x: string, j: nat): int {
    var q := j / 4;
    if j % 4 == 0 then At(x, 3 * q) / 4
    else if j % 4 == 1 then At(x, 3 * q) % 4 * 16 + At(x, 3 * q + 1) / 16
    else if j % 4 == 2 then At(x, 3 * q + 1) % 16 * 4 + At(x, 3 * q + 2) / 64
    else At(x, 3 * q + 2) % 64
  }

  lemma SextetRange(x: string, j: nat)
    requires IsBytes(x)
    ensures 0 <= Sextet(x, j) < 64
  {
  }

  function ValueAt(t: string, j: nat): int {
    if j < |t| then Value(t[j]) else 0
  }

  /** Bits 8k to 8k + 7 of the letters' values. */
  function OctetAt(t: string, k: nat): int {
    var q := k / 3;
    if k % 3 == 0 then ValueAt(t, 4 * q) * 4 + ValueAt(t, 4 * q + 1) / 16
    else if k % 3 == 1 then ValueAt(t, 4 * q + 1) % 16 * 16 + ValueAt(t, 4 * q + 2) / 4
    else ValueAt(t, 4 * q + 2) % 4 * 64 + ValueAt(t, 4 * q + 3)
  }

  /** How many letters n bytes take, and how many '=' follow them. */
  function Letters(n: nat): nat {
    (4 * n + 2) / 3
  }

  function Pads(n: nat): nat {
    if n % 3 == 0 then 0 else 3 - n % 3
  }

  function Encoded(x: string): string
    requires IsBytes(x)
  {
    seq(Letters(|x|), j requires j >= 0 => SextetRange(x, j); Letter(Sextet(x, j))) + seq(Pads(|x|), _ => '=')
  }

  /** Letters only, with a count that bytes can have, and nothing in the bits that are dropped. */
  predicate Strict(t: string) {
    && (forall j :: 0 <= j < |t| ==> Value(t[j]) >= 0)
    && |t| % 4 != 1
    && (|t| % 4 == 2 ==> ValueAt(t, |t| - 1) % 16 == 0)
    && (|t| % 4 == 3 ==> ValueAt(t, |t| - 1) % 4 == 0)
  }

  lemma OctetRange(t: string, k: nat)
    requires forall j :: 0 <= j < |t| ==> Value(t[j]) >= 0
    ensures 0 <= OctetAt(t, k) < 256
  {
    var q := k / 3;
    assert forall j: nat :: 0 <= ValueAt(t, j) < 64 by {
      forall j: nat
        ensures 0 <= ValueAt(t, j) < 64
      {
        if j < |t| { ValueLetter(t[j]); }
      }
    }
  }

  /** The bytes that a text's letters stand for. */
  function Octets(t: string): (x: string)
    requires forall j :: 0 <= j < |t| ==> Value(t[j]) >= 0
    ensures IsBytes(x)
  {
    seq(3 * |t| / 4, k requires k >= 0 => OctetRange(t, k); OctetAt(t, k) as char)
  }

  ghost predicate Spells(t: string, x: string)
    requires IsBytes(x)
  {
    |t| == Letters(|x|) && forall j :: 0 <= j < |t| ==> Value(t[j]) == Sextet(x, j)
  }

  lemma SextetsOfGroup(x: string, q: nat)
    ensures Sextet(x, 4 * q) == At(x, 3 * q) / 4
    ensures Sextet(x, 4 * q + 1) == At(x, 3 * q) % 4 * 16 + At(x, 3 * q + 1) / 16
    ensures Sextet(x, 4 * q + 2) == At(x, 3 * q + 1) % 16 * 4 + At(x, 3 * q + 2) / 64
    ensures Sextet(x, 4 * q + 3) == At(x, 3 * q + 2) % 64
  {
    hide At;
    Quotient(4 * q, q, 4, 0);
    Quotient(4 * q + 1, q, 4, 1);
    Quotient(4 * q + 2, q, 4, 2);
    Quotient(4 * q + 3, q, 4, 3);
  }

  lemma OctetsOfGroup(t: string, q: nat)
    ensures OctetAt(t, 3 * q) == ValueAt(t, 4 * q) * 4 + ValueAt(t, 4 * q + 1) / 16
    ensures OctetAt(t, 3 * q + 1) == ValueAt(t, 4 * q + 1) % 16 * 16 + ValueAt(t, 4 * q + 2) / 4
    ensures OctetAt(t, 3 * q + 2) == ValueAt(t, 4 * q + 2) % 4 * 64 + ValueAt(t, 4 * q + 3)
  {
    hide ValueAt;
    Quotient(3 * q, q, 3, 0);
    Quotient(3 * q + 1, q, 3, 1);
    Quotient(3 * q + 2, q, 3, 2);
  }

  lemma Regroup(a: int, b: int, c: int)
    requires 0 <= a < 256 && 0 <= b < 256 && 0 <= c < 256
    ensures a / 4 * 4 + (a % 4 * 16 + b / 16) / 16 == a
    ensures (a % 4 * 16 + b / 16) % 16 * 16 + (b % 16 * 4 + c / 64) / 4 == b
    ensures (b % 16 * 4 + c / 64) % 4 * 64 + c % 64 == c
  {
  }

  lemma Ungroup(u: int, v: int, w: int, y: int)
    requires 0 <= u < 64 && 0 <= v < 64 && 0 <= w < 64 && 0 <= y < 64
    ensures (u * 4 + v / 16) / 4 == u
    ensures (u * 4 + v / 16) % 4 * 16 + (v % 16 * 16 + w / 4) / 16 == v
    ensures (v % 16 * 16 + w / 4) % 16 * 4 + (w % 4 * 64 + y) / 64 == w
    ensures (w % 4 * 64 + y) % 64 == y
  {
  }

  lemma SpelledAt(x: string, t: string, j: nat)
    requires IsBytes(x) && Spells(t, x)
    ensures j < |t| ==> ValueAt(t, j) == Sextet(x, j)
  {
  }

  /** Reading an octet back from the sextets that hold its bits. */
  lemma OctetBack(x: string, t: string, k: nat)
    requires IsBytes(x) && Spells(t, x) && k < |x|
    ensures OctetAt(t, k) == x[k] as int
  {
    hide Sextet, OctetAt, ValueAt, Spells, Value;
    var q := k / 3;
    assert k == 3 * q || k == 3 * q + 1 || k == 3 * q + 2;
    assert 4 * q + (k - 3 * q) + 1 < |t| by { SpelledLength(x, t); }
    SpelledAt(x, t, 4 * q);
    SpelledAt(x, t, 4 * q + 1);
    SpelledAt(x, t, 4 * q + 2);
    SpelledAt(x, t, 4 * q + 3);
    SextetsOfGroup(x, q);
    OctetsOfGroup(t, q);
    Regroup(At(x, 3 * q), At(x, 3 * q + 1), At(x, 3 * q + 2));
  }

  lemma SpelledLength(x: string, t: string)
    requires IsBytes(x) && Spells(t, x)
    ensures 3 * |t| >= 4 * |x| && |t| == Letters(|x|) && 3 * |t| / 4 == |x|
  {
  }

  lemma OctetsOfSpelling(x: string, t: string)
    requires IsBytes(x) && Spells(t, x)
    ensures Strict(t) && Octets(t) == x
  {
    hide OctetAt;
    forall j | 0 <= j < |t|
      ensures Value(t[j]) >= 0
    {
      SextetRange(x, j);
    }
    forall k: nat | k < |x|
      ensures OctetAt(t, k) == x[k] as int
    {
      OctetBack(x, t, k);
    }
    SpelledLength(x, t);
    LastBits(x, t);
  }

  /** The last letter's spare bits come from beyond the end, so they are zero. */
  lemma LastBits(x: string, t: string)
    requires IsBytes(x) && Spells(t, x)
    ensures |t| % 4 != 1
    ensures |t| % 4 == 2 ==> ValueAt(t, |t| - 1) % 16 == 0
    ensures |t| % 4 == 3 ==> ValueAt(t, |t| - 1) % 4 == 0
  {
    hide Sextet, Value;
    var n := |x|;
    var k, r := n / 3, n % 3;
    var c := if r == 0 then 0 else r + 1;
    Quotient(4 * n + 2, 4 * k + c, 3, 4 * r + 2 - 3 * c);
    Quotient(4 * k + c, k, 4, c);
    SextetsOfGroup(x, k);
    if c > 0 {
      assert ValueAt(t, |t| - 1) == Sextet(x, |t| - 1);
    }
  }

  /** Beyond the end there is nothing, and a strict text's spare bits are zero, so the octets lose nothing. */
  lemma AtOctets(t: string, k: nat)
    requires Strict(t)
    ensures At(Octets(t), k) == OctetAt(t, k)
  {
  }

  lemma ValueRange(t: string, j: nat)
    requires Strict(t)
    ensures 0 <= ValueAt(t, j) < 64
  {
    if j < |t| { ValueLetter(t[j]); }
  }

  /** Reading a letter back from the octets that hold its bits. */
  lemma SextetBack(t: string, j: nat)
    requires Strict(t) && j < |t|
    ensures Sextet(Octets(t), j) == Value(t[j])
  {
    hide Sextet, OctetAt, Octets, At, Value;
    var x, q := Octets(t), j / 4;
    assert j == 4 * q || j == 4 * q + 1 || j == 4 * q + 2 || j == 4 * q + 3;
    AtOctets(t, 3 * q);
    AtOctets(t, 3 * q + 1);
    AtOctets(t, 3 * q + 2);
    ValueRange(t, 4 * q);
    ValueRange(t, 4 * q + 1);
    ValueRange(t, 4 * q + 2);
    ValueRange(t, 4 * q + 3);
    SextetsOfGroup(x, q);
    OctetsOfGroup(t, q);
    Ungroup(ValueAt(t, 4 * q), ValueAt(t, 4 * q + 1), ValueAt(t, 4 * q + 2), ValueAt(t, 4 * q + 3));
  }

  lemma SpellingOfOctets(t: string)
    requires Strict(t)
    ensures Spells(t, Octets(t))
  {
    forall j | 0 <= j < |t|
      ensures Value(t[j]) == Sextet(Octets(t), j)
    {
      SextetBack(t, j);
    }
  }

  // ---- whole texts

  /** The text without the '=' at its end. */
  function Body(text: string): string {
    if |text| > 0 && text[|text| - 1] == '=' then Body(text[..|text| - 1]) else text
  }

  lemma {:induction false} BodyIsFront(text: string)
    ensures |Body(text)| <= |text| && Body(text) == text[..|Body(text)|]
    ensures forall i :: |Body(text)| <= i < |text| ==> text[i] == '='
    ensures |Body(text)| > 0 ==> text[|Body(text)| - 1] != '='
  {
    if |text| > 0 && text[|text| - 1] == '=' {
      BodyIsFront(text[..|text| - 1]);
    }
  }

  lemma {:induction false} BodyOf(t: string, text: string)
    requires |t| <= |text| && text[..|t|] == t && (|t| > 0 ==> t[|t| - 1] != '=')
    requires forall i :: |t| <= i < |text| ==> text[i] == '='
    ensures Body(text) == t
    decreases |text|
  {
    if |text| > |t| {
      assert text[..|text| - 1][..|t|] == t;
      BodyOf(t, text[..|text| - 1]);
    } else {
      assert text == t;
    }
  }

  /** The texts the strict decoder takes. */
  predicate Accepted(text: string) {
    var t := Body(text);
    |text| - |t| <= 2 && |text| % 4 == 0 && Strict(t)
  }

  lemma EncodedShape(x: string)
    requires IsBytes(x)
    ensures var t := Encoded(x)[..Letters(|x|)];
            && Spells(t, x) && Body(Encoded(x)) == t && |Encoded(x)| == Letters(|x|) + Pads(|x|)
            && forall j :: 0 <= j < |t| ==> t[j] == Letter(Sextet(x, j)) && t[j] != '='
  {
    hide Sextet, Letter, Value, Letters, Pads;
    var t := Encoded(x)[..Letters(|x|)];
    forall j: nat
      ensures 0 <= Sextet(x, j) < 64
    {
      SextetRange(x, j);
    }
    forall j | 0 <= j < |t|
      ensures t[j] == Letter(Sextet(x, j)) && Value(t[j]) == Sextet(x, j) && t[j] != '='
    {
      LetterValue(Sextet(x, j));
    }
    BodyOf(t, Encoded(x));
  }

  lemma EncodedLength(n: nat)
    ensures (Letters(n) + Pads(n)) % 4 == 0 && Pads(n) <= 2
  {
  }

  /** Decoding undoes encoding, for every byte string. */
  lemma DecodeUndoesEncode(x: string)
    requires IsBytes(x)
    ensures Accepted(Encoded(x)) && Octets(Body(Encoded(x))) == x
  {
    hide Octets, Encoded, Strict, Spells, Body;
    EncodedShape(x);
    EncodedLength(|x|);
    OctetsOfSpelling(x, Encoded(x)[..Letters(|x|)]);
  }

  /** A text that decodes is the encoding of what it decodes to. */
  lemma EncodeUndoesDecode(text: string)
    requires Accepted(text)
    ensures Encoded(Octets(Body(text))) == text
  {
    hide Octets, Letters, Pads, Sextet, Letter, Value, Spells, Body;
    var t := Body(text);
    var x := Octets(t);
    BodyIsFront(text);
    SpellingOfOctets(t);
    LettersBack(t, x);
    PadsFill(text, t, x);
    assert forall j :: 0 <= j < |text| ==> Encoded(x)[j] == text[j];
  }

  lemma LettersBack(t: string, x: string)
    requires IsBytes(x) && Strict(t) && Spells(t, x)
    ensures |t| == Letters(|x|)
    ensures forall j :: 0 <= j < |t| ==> 0 <= Sextet(x, j) < 64 && Letter(Sextet(x, j)) == t[j]
  {
    hide Sextet, Letters;
    forall j | 0 <= j < |t|
      ensures 0 <= Sextet(x, j) < 64 && Letter(Sextet(x, j)) == t[j]
    {
      SextetRange(x, j);
      ValueLetter(t[j]);
    }
  }

  lemma PadsFill(text: string, t: string, x: string)
    requires IsBytes(x) && Spells(t, x) && |t| <= |text|
    requires |text| - |t| <= 2 && |text| % 4 == 0
    ensures |text| == Letters(|x|) + Pads(|x|)
  {
  }

  /** Encoding is a bijection between byte strings and accepted texts. */
  lemma AcceptedIffEncoding(text: string)
    ensures Accepted(text) <==> exists x: string :: IsBytes(x) && Encoded(x) == text
  {
    hide Encoded, Octets, Strict, Body, Accepted;
    if Accepted(text) {
      AcceptedStrict(text);
      EncodeUndoesDecode(text);
    }
    forall x: string | IsBytes(x) && Encoded(x) == text
      ensures Accepted(text)
    {
      DecodeUndoesEncode(x);
    }
  }

  lemma AcceptedStrict(text: string)
    requires Accepted(text)
    ensures Strict(Body(text))
  {
  }
}

/** The encoder's and the decoder's loops over a bit buffer. */
module Base64 {
  import opened Arithmetic
  import opened Bytes
  import opened Base64Spec

  /** (n >> k) & 0x3F, for d == 2^k. */
  function Cut(n: nat, d: nat): nat
    requires d > 0
  {
    n / d % 64
  }

  lemma CutHigh(a: int, b: int, c: int)
    requires 0 <= a < 256 && 0 <= b < 256 && 0 <= c < 256
    ensures var n := a * 0x1_0000 + b * 0x100 + c;
            n / 0x4_0000 % 64 == a / 4 && n / 0x1000 % 64 == a % 4 * 16 + b / 16
  {
    var n := a * 0x1_0000 + b * 0x100 + c;
    Quotient(n, a / 4, 0x4_0000, a % 4 * 0x1_0000 + b * 0x100 + c);
    Quotient(n, a * 16 + b / 16, 0x1000, b % 16 * 0x100 + c);
    Quotient(n / 0x1000, a / 4, 64, a % 4 * 16 + b / 16);
  }

  lemma CutLow(a: int, b: int, c: int)
    requires 0 <= a < 256 && 0 <= b < 256 && 0 <= c < 256
    ensures var n := a * 0x1_0000 + b * 0x100 + c;
            n / 64 % 64 == b % 16 * 4 + c / 64 && n % 64 == c % 64
  {
    var n := a * 0x1_0000 + b * 0x100 + c;
    Quotient(n, a * 1024 + b * 4 + c / 64, 64, c % 64);
    Quotient(n / 64, a * 16 + b / 16, 64, b % 16 * 4 + c / 64);
  }

  /** What three bytes, read as one number, spell. */
  lemma GroupSextets(x: string, i: nat, n: nat)
    requires i % 3 == 0 && 0 <= At(x, i) < 256 && 0 <= At(x, i + 1) < 256 && 0 <= At(x, i + 2) < 256
    requires n == At(x, i) * 0x1_0000 + At(x, i + 1) * 0x100 + At(x, i + 2)
    ensures var j := i / 3 * 4;
            && Cut(n, 0x4_0000) < 64 && Cut(n, 0x1000) < 64 && Cut(n, 64) < 64 && Cut(n, 1) < 64
            && 0 <= Sextet(x, j) == Cut(n, 0x4_0000) && 0 <= Sextet(x, j + 1) == Cut(n, 0x1000)
            && 0 <= Sextet(x, j + 2) == Cut(n, 64) && 0 <= Sextet(x, j + 3) == Cut(n, 1)
  {
    hide At, Sextet;
    SextetsOfGroup(x, i / 3);
    CutHigh(At(x, i), At(x, i + 1), At(x, i + 2));
    CutLow(At(x, i), At(x, i + 1), At(x, i + 2));
  }

  /** The first letters of what a byte string spells. */
  ghost predicate LettersOf(out: string, raw: string)
  {
    forall j :: 0 <= j < |out| ==> 0 <= Sextet(raw, j) < 64 && out[j] == Letter(Sextet(raw, j))
  }

  lemma LettersDone(out: string, raw: string)
    requires IsBytes(raw) && LettersOf(out, raw) && |out| == Letters(|raw|)
    ensures out + seq(Pads(|raw|), _ => '=') == Encoded(raw)
  {
    hide Sextet, Letter, Letters, Pads;
    assert out == Encoded(raw)[..|out|];
  }

  method Put(out: string, v: nat, raw: string) returns (more: string)
    requires LettersOf(out, raw) && v == Sextet(raw, |out|) < 64
    ensures LettersOf(more, raw) && |more| == |out| + 1
  {
    hide Sextet, Letter;
    more := out + [Letter(v)];
  }

  method Encode(raw: string) returns (out: string)
    requires IsBytes(raw)
    ensures out == Encoded(raw)
  {
    hide Sextet, Letter, LettersOf, Encoded, Cut;
    out := "";
    assert LettersOf(out, raw) by { NoLetters(raw); }
    var i := 0;
    while i + 3 <= |raw|
      invariant 0 <= i <= |raw| && i % 3 == 0 && |out| == i / 3 * 4
      invariant LettersOf(out, raw)
    {
      var n := raw[i] as int * 0x1_0000 + raw[i + 1] as int * 0x100 + raw[i + 2] as int;
      GroupSextets(raw, i, n);
      out := Put(out, Cut(n, 0x4_0000), raw);
      out := Put(out, Cut(n, 0x1000), raw);
      out := Put(out, Cut(n, 64), raw);
      out := Put(out, Cut(n, 1), raw);
      i := i + 3;
    }
    var rem := |raw| - i;
    LettersOfRest(i, rem);
    if rem == 1 {
      var n := raw[i] as int * 0x1_0000;
      GroupSextets(raw, i, n);
      out := Put(out, Cut(n, 0x4_0000), raw);
      out := Put(out, Cut(n, 0x1000), raw);
      LettersDone(out, raw);
      out := out + "==";
    } else if rem == 2 {
      var n := raw[i] as int * 0x1_0000 + raw[i + 1] as int * 0x100;
      GroupSextets(raw, i, n);
      out := Put(out, Cut(n, 0x4_0000), raw);
      out := Put(out, Cut(n, 0x1000), raw);
      out := Put(out, Cut(n, 64), raw);
      LettersDone(out, raw);
      out := out + "=";
    } else {
      LettersDone(out, raw);
      assert out + "" == out;
    }
  }

  lemma NoLetters(raw: string)
    ensures LettersOf("", raw)
  {
  }

  lemma LettersOfRest(i: nat, rem: nat)
    requires i % 3 == 0 && rem < 3
    ensures Letters(i + rem) == i / 3 * 4 + (if rem == 0 then 0 else rem + 1)
    ensures Pads(i + rem) == if rem == 0 then 0 else 3 - rem
    ensures seq(2, _ => '=') == "==" && seq(1, _ => '=') == "=" && seq(0, _ => '=') == ""
  {
  }

  /** How many unread bits the buffer holds after i letters. */
  function Pending(i: nat): nat {
    if i % 4 == 0 then 0 else if i % 4 == 1 then 6 else if i % 4 == 2 then 4 else 2
  }

  function Modulus(bits: nat): nat {
    if bits == 0 then 1 else if bits == 2 then 4 else if bits == 4 then 16 else 64
  }

  lemma Wraps(buf: int)
    requires 0 <= buf < 0x1_0000_0000
    ensures buf * 64 % 0x1_0000_0000 == buf % 0x400_0000 * 64
  {
    Quotient(buf * 64, buf / 0x400_0000, 0x1_0000_0000, buf % 0x400_0000 * 64);
  }

  /** Pushing six bits onto a 32-bit buffer leaves the low bits of what was there above them. */
  lemma Pushed(buf: int, v: int, m: int)
    requires 0 <= buf < 0x1_0000_0000 && 0 <= v < 64 && (m == 1 || m == 4 || m == 16 || m == 64)
    ensures var next := buf * 64 % 0x1_0000_0000 + v;
            0 <= next < 0x1_0000_0000 && (m != 1 ==> next % (64 * m) == buf % m * 64 + v) && next % 64 == v
  {
    Wraps(buf);
    Push(buf % 0x400_0000, v, 64, m);
    Push(buf % 0x400_0000, v, 64, 1);
    Trim(buf, m, 0x400_0000 / m);
  }

  lemma PopFour(buf: int, u: int, v: int)
    requires 0 <= buf && 0 <= u < 64 && 0 <= v < 64 && buf % 4096 == u * 64 + v
    ensures buf / 16 % 256 == u * 4 + v / 16 && buf % 16 == v % 16
  {
    var k := buf / 4096;
    Quotient(buf, k * 256 + (u * 4 + v / 16), 16, v % 16);
    Quotient(buf / 16, k, 256, u * 4 + v / 16);
  }

  lemma PopTwo(buf: int, u: int, v: int)
    requires 0 <= buf && 0 <= u < 64 && 0 <= v < 64 && buf % 1024 == u % 16 * 64 + v
    ensures buf / 4 % 256 == u % 16 * 16 + v / 4 && buf % 4 == v % 4
  {
    var k := buf / 1024;
    Quotient(buf, k * 256 + (u % 16 * 16 + v / 4), 4, v % 4);
    Quotient(buf / 4, k, 256, u % 16 * 16 + v / 4);
  }

  /** The byte that comes out of the buffer, and the bits that stay in it. */
  lemma Popped(t: string, i: nat, before: int, buf: int)
    requires 0 < i % 4 && i < |t| && 0 <= ValueAt(t, i - 1) < 64 && 0 <= ValueAt(t, i) < 64
    requires before % Modulus(Pending(i)) == ValueAt(t, i - 1) % Modulus(Pending(i))
    requires 0 <= buf && buf % (64 * Modulus(Pending(i))) == before % Modulus(Pending(i)) * 64 + ValueAt(t, i)
    ensures buf / Modulus(Pending(i + 1)) % 256 == OctetAt(t, 3 * i / 4)
    ensures buf % Modulus(Pending(i + 1)) == ValueAt(t, i) % Modulus(Pending(i + 1))
  {
    hide ValueAt, OctetAt;
    var q, r := i / 4, i % 4;
    OctetIndex(i);
    OctetsOfGroup(t, q);
    if r == 1 {
      PopFour(buf, ValueAt(t, i - 1), ValueAt(t, i));
    } else if r == 2 {
      PopTwo(buf, ValueAt(t, i - 1), ValueAt(t, i));
    }
  }

  lemma OctetIndex(i: nat)
    ensures i % 4 != 0 ==> 3 * i / 4 == i / 4 * 3 + i % 4 - 1 && 3 * (i + 1) / 4 == 3 * i / 4 + 1
    ensures i % 4 == 0 ==> 3 * (i + 1) / 4 == 3 * i / 4
    ensures (i + 1) % 4 == if i % 4 == 3 then 0 else i % 4 + 1
  {
    var q, r := i / 4, i % 4;
    Quotient(3 * i, if r == 0 then 3 * q else 3 * q + r - 1, 4, if r == 0 then 0 else 4 - r);
    Quotient(3 * (i + 1), 3 * q + r, 4, 3 - r);
    Quotient(i + 1, if r == 3 then q + 1 else q, 4, if r == 3 then 0 else r + 1);
  }

  /** Counts the '=' at the end. */
  method StripPads(text: string) returns (len: nat, pad: nat)
    ensures len + pad == |text| && text[..len] == Body(text)
  {
    len, pad := |text|, 0;
    assert text[..|text|] == text;
    while len > 0 && text[len - 1] == '='
      invariant 0 <= len <= |text| && pad == |text| - len
      invariant Body(text[..len]) == Body(text)
    {
      assert text[..len][..len - 1] == text[..len - 1];
      pad := pad + 1;
      len := len - 1;
    }
  }

  /** What the decoder's variables say after i letters. */
  ghost predicate Reading(t: string, i: nat, buf: int, bits: nat, out: string) {
    && i <= |t| && 0 <= buf < 0x1_0000_0000 && bits == Pending(i)
    && (forall j :: 0 <= j < i ==> Value(t[j]) >= 0)
    && |out| == 3 * i / 4 && (forall k :: 0 <= k < |out| ==> out[k] as int == OctetAt(t, k))
    && buf % Modulus(bits) == (if i > 0 then ValueAt(t, i - 1) % Modulus(bits) else 0)
  }

  /** The buffer after one more letter. */
  function Next(buf: int, v: int): int {
    buf * 64 % 0x1_0000_0000 + v
  }

  lemma ReadFirst(t: string, i: nat, buf: int, bits: nat, out: string)
    requires Reading(t, i, buf, bits, out) && i < |t| && Value(t[i]) >= 0 && i % 4 == 0
    ensures bits + 6 < 8 && Reading(t, i + 1, Next(buf, Value(t[i])), bits + 6, out)
  {
    hide Value, OctetAt;
    ValueLetter(t[i]);
    Pushed(buf, Value(t[i]), 1);
    OctetIndex(i);
  }

  lemma ReadByte(t: string, i: nat, buf: int, bits: nat, out: string)
    requires Reading(t, i, buf, bits, out) && i < |t| && Value(t[i]) >= 0 && i % 4 != 0
    ensures bits + 6 >= 8 && bits - 2 >= 0
    ensures var next := Next(buf, Value(t[i]));
            Reading(t, i + 1, next, bits - 2, out + [(next / Modulus(bits - 2) % 256) as char])
  {
    hide Value, OctetAt;
    ValueLetter(t[i]);
    ValueLetter(t[i - 1]);
    Pushed(buf, Value(t[i]), Modulus(bits));
    OctetIndex(i);
    Popped(t, i, buf, Next(buf, Value(t[i])));
  }

  lemma ReadAll(t: string, buf: int, bits: nat, out: string)
    requires Reading(t, |t|, buf, bits, out) && |t| % 4 != 1
    ensures Strict(t) <==> buf % Modulus(bits) == 0
    ensures Strict(t) ==> out == Octets(t)
  {
    hide Value, OctetAt;
  }

  method Decode(text: string) returns (ok: bool, out: string)
    ensures ok <==> Accepted(text)
    ensures ok ==> out == Octets(Body(text))
  {
    hide OctetAt, Value, Body, Reading, Octets;
    out := "";
    var len, pad := StripPads(text);
    ghost var t := text[..len];
    if pad > 2 || (len + pad) % 4 != 0 {
      return false, out;
    }
    var buf: int, bits: nat := 0, 0;
    var i := 0;
    ReadNone(t);
    while i < len
      invariant 0 <= i <= len && Reading(t, i, buf, bits, out)
    {
      var v := Value(text[i]);
      if v < 0 {
        assert Value(t[i]) < 0;
        return false, out;
      }
      ghost var was := buf;
      buf := buf * 64 % 0x1_0000_0000 + v;
      if i % 4 == 0 {
        ReadFirst(t, i, was, bits, out);
      } else {
        ReadByte(t, i, was, bits, out);
      }
      bits := bits + 6;
      if bits >= 8 {
        bits := bits - 8;
        out := out + [(buf / Modulus(bits) % 256) as char];
      }
      i := i + 1;
    }
    ReadAll(t, buf, bits, out);
    if buf % Modulus(bits) != 0 {
      return false, out;
    }
    ok := true;
  }

  lemma ReadNone(t: string)
    ensures Reading(t, 0, 0, 0, "")
  {
  }
}

/** The alphabet for URLs (section 5 of RFC 4648), reusing the strict codec. */
module Base64Url {
  import opened Arithmetic
  import opened Bytes
  import opened Base64Spec
  import Base64

  function Dash(c: char): char {
    if c == '+' then '-' else if c == '/' then '_' else c
  }

  function Undash(c: char): char {
    if c == '-' then '+' else if c == '_' then '/' else c
  }

  function Dashed(s: string): string {
    seq(|s|, i requires 0 <= i < |s| => Dash(s[i]))
  }

  function Undashed(s: string): string {
    seq(|s|, i requires 0 <= i < |s| => Undash(s[i]))
  }

  function UrlEncoded(x: string, padded: bool): string
    requires IsBytes(x)
  {
    if padded then Dashed(Encoded(x)) else Body(Dashed(Encoded(x)))
  }

  /** The padding that a text's length lacks; a length of 4k + 1 cannot be completed. */
  function Missing(n: nat): nat {
    if n % 4 == 0 then 0 else 4 - n % 4
  }

  function Completed(s: string): string {
    Undashed(s) + seq(Missing(|s|), _ => '=')
  }

  predicate UrlAccepted(text: string) {
    |text| % 4 != 1 && Accepted(Completed(text))
  }

  method Encode(raw: string, padded: bool) returns (out: string)
    requires IsBytes(raw)
    ensures out == UrlEncoded(raw, padded)
  {
    var plain := Base64.Encode(raw);
    out := plain;
    var i := 0;
    while i < |out|
      invariant 0 <= i <= |out| == |plain|
      invariant forall k :: 0 <= k < i ==> out[k] == Dash(plain[k])
      invariant forall k :: i <= k < |out| ==> out[k] == plain[k]
    {
      if out[i] == '+' {
        out := out[i := '-'];
      } else if out[i] == '/' {
        out := out[i := '_'];
      }
      i := i + 1;
    }
    assert out == Dashed(plain);
    if !padded {
      var len, _ := Base64.StripPads(out);
      out := out[..len];
    }
  }

  method Decode(text: string) returns (ok: bool, out: string)
    ensures ok <==> UrlAccepted(text)
    ensures ok ==> out == Octets(Body(Completed(text)))
  {
    hide Accepted, Octets, Body;
    var norm := "";
    var i := 0;
    while i < |text|
      invariant 0 <= i <= |text| && |norm| == i
      invariant forall k :: 0 <= k < i ==> norm[k] == Undash(text[k])
    {
      if text[i] == '-' {
        norm := norm + "+";
      } else if text[i] == '_' {
        norm := norm + "/";
      } else {
        norm := norm + [text[i]];
      }
      i := i + 1;
    }
    assert norm == Undashed(text);
    var rem := |norm| % 4;
    if rem == 1 {
      return false, "";
    }
    if rem != 0 {
      norm := norm + seq(4 - rem, _ => '=');
    }
    assert norm == Completed(text);
    ok, out := Base64.Decode(norm);
  }

  lemma DashFacts(c: char)
    ensures Dash(c) == '=' <==> c == '='
    ensures Undash(c) == '=' <==> c == '='
    ensures c != '-' && c != '_' ==> Undash(Dash(c)) == c
    ensures Dash(Undash(c)) == Dash(c)
  {
  }

  lemma LettersAreNotDashes(v: nat)
    requires v < 64
    ensures Letter(v) != '-' && Letter(v) != '_'
  {
  }

  lemma {:induction false} BodyDashed(s: string)
    ensures Body(Dashed(s)) == Dashed(Body(s))
    decreases |s|
  {
    BodyIsFront(s);
    var t := Body(s);
    assert Dashed(s)[..|t|] == Dashed(t);
    BodyOf(Dashed(t), Dashed(s));
  }

  /** Padded or not, the encoding completes to the standard one. */
  lemma EncodingCompletes(x: string, padded: bool)
    requires IsBytes(x)
    ensures |UrlEncoded(x, padded)| % 4 != 1 && Completed(UrlEncoded(x, padded)) == Encoded(x)
  {
    hide Encoded, Body, Letters, Pads, Dashed, Undashed, Spells;
    var e := Encoded(x);
    EncodedPads(x);
    var t := e[..Letters(|x|)];
    EncodedShape(x);
    EncodedLength(|x|);
    BodyDashed(e);
    UndashedAgain(x);
    if padded {
      assert e + seq(0, _ => '=') == e;
    } else {
      MissingPads(|x|);
    }
  }

  lemma MissingPads(n: nat)
    ensures Letters(n) % 4 != 1 && Missing(Letters(n)) == Pads(n)
  {
    var k, r := n / 3, n % 3;
    var c := if r == 0 then 0 else r + 1;
    Quotient(4 * n + 2, 4 * k + c, 3, 4 * r + 2 - 3 * c);
    Quotient(4 * k + c, k, 4, c);
  }

  lemma EncodedPads(x: string)
    requires IsBytes(x)
    ensures Letters(|x|) <= |Encoded(x)|
    ensures Encoded(x) == Encoded(x)[..Letters(|x|)] + seq(Pads(|x|), _ => '=')
  {
    hide Letters, Pads, Sextet, Letter;
  }

  lemma UndashedAgain(x: string)
    requires IsBytes(x)
    ensures |Dashed(Encoded(x))| == |Encoded(x)| && Undashed(Dashed(Encoded(x))) == Encoded(x)
    ensures Letters(|x|) <= |Encoded(x)|
    ensures var t := Encoded(x)[..Letters(|x|)]; |Dashed(t)| == |t| && Undashed(Dashed(t)) == t
  {
    hide Encoded, Sextet, Letter, Body, Letters, Pads, Spells;
    var e := Encoded(x);
    EncodedShape(x);
    EncodedPads(x);
    forall j | 0 <= j < |e|
      ensures Undash(Dash(e[j])) == e[j]
    {
      if j < Letters(|x|) {
        SextetRange(x, j);
        LettersAreNotDashes(Sextet(x, j));
      }
    }
  }

  /** Decoding undoes encoding, padded or not, for every byte string. */
  lemma UrlDecodeUndoesEncode(x: string, padded: bool)
    requires IsBytes(x)
    ensures UrlAccepted(UrlEncoded(x, padded)) && Octets(Body(Completed(UrlEncoded(x, padded)))) == x
  {
    hide Accepted, Octets, Body, Encoded, Completed, UrlEncoded;
    EncodingCompletes(x, padded);
    DecodeUndoesEncode(x);
  }

  /**
   A text that decodes is the unpadded encoding of what it decodes to, up to the standard
   alphabet's two letters and to padding.
   */
  lemma UrlEncodeUndoesDecode(text: string)
    requires UrlAccepted(text)
    ensures UrlEncoded(Octets(Body(Completed(text))), false) == Dashed(Body(text))
  {
    hide Accepted, Octets, Body, Encoded;
    var full := Completed(text);
    EncodeUndoesDecode(full);
    BodyDashed(full);
    BodyCompleted(text);
    assert Dashed(Undashed(Body(text))) == Dashed(Body(text)) by {
      forall i | 0 <= i < |Body(text)|
        ensures Dash(Undash(Body(text)[i])) == Dash(Body(text)[i])
      {
        DashFacts(Body(text)[i]);
      }
    }
  }

  lemma BodyCompleted(text: string)
    ensures Body(Completed(text)) == Undashed(Body(text))
  {
    BodyIsFront(text);
    var t := Body(text);
    var full := Completed(text);
    assert full[..|t|] == Undashed(t);
    if |t| > 0 { DashFacts(t[|t| - 1]); }
    BodyOf(Undashed(t), full);
  }

  predicate EndsInPad(text: string) {
    |text| > 0 && text[|text| - 1] == '='
  }

  /** Only letters of this alphabet, and padding complete if there is any. */
  predicate Canonical(text: string) {
    (forall i :: 0 <= i < |text| ==> text[i] != '+' && text[i] != '/') && (EndsInPad(text) ==> |text| % 4 == 0)
  }

  lemma DashedIsSame(text: string)
    ensures |Dashed(text)| == |text|
    ensures Dashed(text) == text <==> forall i :: 0 <= i < |text| ==> text[i] != '+' && text[i] != '/'
  {
    assert forall i :: 0 <= i < |text| ==> Dashed(text)[i] == Dash(text[i]);
    if Dashed(text) == text {
      assert forall i :: 0 <= i < |text| ==> text[i] == Dash(text[i]);
    }
  }

  lemma PaddedFrom(text: string)
    requires UrlAccepted(text)
    ensures UrlEncoded(Octets(Body(Completed(text))), true) == Dashed(text) + seq(Missing(|text|), _ => '=')
  {
    hide Accepted, Octets, Body, Encoded;
    EncodeUndoesDecode(Completed(text));
    forall i | 0 <= i < |text|
      ensures Dash(Undash(text[i])) == Dash(text[i])
    {
      DashFacts(text[i]);
    }
  }

  lemma BodyIsSame(text: string)
    ensures |Body(text)| <= |text| && (Body(text) == text <==> !EndsInPad(text))
            && (|Body(text)| == |text| <==> !EndsInPad(text))
  {
    BodyIsFront(text);
  }

  /** An accepted text is what the encoder writes, padded or not, exactly when it is canonical. */
  lemma CanonicalIff(text: string)
    requires UrlAccepted(text)
    ensures var x := Octets(Body(Completed(text)));
            text == UrlEncoded(x, true) || text == UrlEncoded(x, false) <==> Canonical(text)
  {
    hide Octets, Body, Completed, UrlEncoded, Dashed, EndsInPad;
    var x := Octets(Body(Completed(text)));
    UrlEncodeUndoesDecode(text);
    PaddedFrom(text);
    DashedIsSame(text);
    DashedIsSame(Body(text));
    BodyIsSame(text);
    assert |UrlEncoded(x, true)| == |text| + Missing(|text|);
    if Missing(|text|) == 0 {
      assert Dashed(text) + seq(0, _ => '=') == Dashed(text);
    }
  }

  /** Partial padding is taken, and the standard alphabet's letters are. */
  lemma NotCanonical(text: string)
    requires text == "QQ=" || text == "+w"
    ensures UrlAccepted(text) && !Canonical(text)
  {
    var full := Completed(text);
    assert |full| == 4 && full[..2] == text[..2] && full[2] == '=' && full[3] == '=';
    BodyOf(text[..2], full);
    assert text == "+w" ==> text[0] == '+';
    assert text == "QQ=" ==> EndsInPad(text) && |text| == 3;
  }
}
