/**
 Base32 (section 6 of RFC 4648): a byte string is a number in base 256, its letters are the
 digits of that number, shifted to a multiple of five bits, in base 32.
 */
module Base32Spec {
  import opened Arithmetic
  import opened Bytes
  import Base64Spec

  // ---- numbers and their digits

  function Number(x: string): nat {
    if |x| == 0 then 0 else Number(x[..|x| - 1]) * 256 + x[|x| - 1] as int
  }

  function BytesOf(v: nat, count: nat): string {
    if count == 0 then "" else BytesOf(v / 256, count - 1) + [(v % 256) as char]
  }

  lemma {:induction false} BytesOfNumber(x: string)
    requires IsBytes(x)
    ensures BytesOf(Number(x), |x|) == x
  {
    if |x| > 0 {
      var n := |x| - 1;
      BytesOfNumber(x[..n]);
      Quotient(Number(x), Number(x[..n]), 256, x[n] as int);
      assert x == x[..n] + [x[n]];
    }
  }

  lemma {:induction false} NumberBound(x: string)
    requires IsBytes(x)
    ensures Number(x) < Pow2(8 * |x|)
  {
    if |x| > 0 {
      NumberBound(x[..|x| - 1]);
      Pow2Small();
      Pow2Sum(8 * (|x| - 1), 8);
    }
  }

  function Letter(v: nat): char
    requires v < 32
  {
    if v < 26 then (65 + v) as char else (24 + v) as char
  }

  /** A letter's value in either case, or -1. */
  function Value(c: char): int {
    if 'A' <= c <= 'Z' then c as int - 65
    else if 'a' <= c <= 'z' then c as int - 97
    else if '2' <= c <= '7' then c as int - 24
    else -1
  }

  lemma LetterValue(v: nat)
    requires v < 32
    ensures Value(Letter(v)) == v && Letter(v) != '='
  {
  }

  function Upper(c: char): char {
    if 'a' <= c <= 'z' then (c as int - 32) as char else c
  }

  lemma ValueLetter(c: char)
    ensures -1 <= Value(c) < 32
    ensures Value(c) >= 0 ==> Letter(Value(c)) == Upper(c) && Value(Upper(c)) == Value(c) && c != '='
  {
  }

  predicate Quintets(t: string) {
    forall i :: 0 <= i < |t| ==> Value(t[i]) >= 0
  }

  function Joined(t: string): nat
    requires Quintets(t)
  {
    if |t| == 0 then 0 else Joined(t[..|t| - 1]) * 32 + Value(t[|t| - 1])
  }

  function Spell(v: nat, count: nat): string {
    if count == 0 then "" else Spell(v / 32, count - 1) + [Letter(v % 32)]
  }

  function Uppered(t: string): string {
    seq(|t|, i requires 0 <= i < |t| => Upper(t[i]))
  }

  lemma {:induction false} SpellJoined(t: string)
    requires Quintets(t)
    ensures Spell(Joined(t), |t|) == Uppered(t)
  {
    hide Value, Letter, Upper;
    if |t| > 0 {
      var n := |t| - 1;
      SpellJoined(t[..n]);
      ValueLetter(t[n]);
      Quotient(Joined(t), Joined(t[..n]), 32, Value(t[n]));
      assert Uppered(t) == Uppered(t[..n]) + [Upper(t[n])];
    }
  }

  lemma OneLetter(v: nat, count: nat)
    requires count > 0 && v < Pow2(5 * count)
    ensures v / 32 < Pow2(5 * (count - 1)) && v == v / 32 * 32 + v % 32
  {
    Pow2Small();
    Pow2Sum(5 * (count - 1), 5);
    Smaller(v / 32, Pow2(5 * (count - 1)), 32);
  }

  lemma {:induction false} JoinedSpell(v: nat, count: nat)
    requires v < Pow2(5 * count)
    ensures |Spell(v, count)| == count && Quintets(Spell(v, count)) && Joined(Spell(v, count)) == v
    ensures Uppered(Spell(v, count)) == Spell(v, count)
    ensures forall i :: 0 <= i < count ==> Spell(v, count)[i] != '='
  {
    hide Value, Letter, Upper, Pow2;
    Pow2Small();
    if count > 0 {
      OneLetter(v, count);
      JoinedSpell(v / 32, count - 1);
      LetterValue(v % 32);
      ValueLetter(Letter(v % 32));
      assert Spell(v, count)[..count - 1] == Spell(v / 32, count - 1);
    }
  }

  // ---- what is encoded, what is decoded

  function LetterCount(n: nat): nat {
    (8 * n + 4) / 5
  }

  /** The zero bits that complete the last letter. */
  function Spare(n: nat): nat {
    5 * LetterCount(n) - 8 * n
  }

  function LettersOf(x: string): string {
    Spell(Number(x) * Pow2(Spare(|x|)), LetterCount(|x|))
  }

  function Fill(count: nat): nat {
    if count % 8 == 0 then 0 else 8 - count % 8
  }

  function Encoded(x: string): string {
    LettersOf(x) + seq(Fill(LetterCount(|x|)), _ => '=')
  }

  /** A number without its low bits, and the low bits. */
  function High(v: nat, bits: nat): nat {
    Div(v, Pow2(bits))
  }

  function Low(v: nat, bits: nat): nat {
    Mod(v, Pow2(bits))
  }

  lemma HighLow(v: nat, bits: nat)
    ensures v == High(v, bits) * Pow2(bits) + Low(v, bits) && Low(v, bits) < Pow2(bits)
  {
  }

  lemma HighLowUnique(v: nat, bits: nat, high: nat, low: nat)
    requires v == high * Pow2(bits) + low && low < Pow2(bits)
    ensures High(v, bits) == high && Low(v, bits) == low
  {
    Quotient(v, high, Pow2(bits), low);
  }

  /** The bytes of a text of letters: its number without the bits that fill no byte. */
  function Octets(t: string): string
    requires Quintets(t)
  {
    BytesOf(High(Joined(t), 5 * |t| % 8), 5 * |t| / 8)
  }

  predicate NothingLost(t: string)
    requires Quintets(t)
  {
    Low(Joined(t), 5 * |t| % 8) == 0
  }

  /** The texts that strict decoding takes: letters of either case, then at most six '='. */
  predicate Accepted(text: string) {
    var t := Base64Spec.Body(text);
    |text| - |t| <= 6 && Quintets(t) && NothingLost(t)
  }

  lemma LettersOfShape(x: string)
    requires IsBytes(x)
    ensures var t := LettersOf(x);
            && |t| == LetterCount(|x|) && Quintets(t) && Joined(t) == Number(x) * Pow2(Spare(|x|)) && Uppered(t) == t
            && 0 <= Spare(|x|) < 5 && 5 * |t| / 8 == |x| && 5 * |t| % 8 == Spare(|x|)
            && Base64Spec.Body(Encoded(x)) == t
  {
    hide Spell, LetterCount, Spare, Pow2, Number, Value, Joined;
    var n := |x|;
    CountFacts(n);
    NumberBound(x);
    Pow2Sum(8 * n, Spare(n));
    Scaled(Number(x), Pow2(8 * n), Pow2(Spare(n)));
    JoinedSpell(Number(x) * Pow2(Spare(n)), LetterCount(n));
    Base64Spec.BodyOf(LettersOf(x), Encoded(x));
  }

  lemma CountFacts(n: nat)
    ensures 0 <= Spare(n) < 5 && 5 * LetterCount(n) == 8 * n + Spare(n)
    ensures 5 * LetterCount(n) / 8 == n && 5 * LetterCount(n) % 8 == Spare(n)
  {
    Quotient(5 * LetterCount(n), n, 8, Spare(n));
  }

  lemma Scaled(a: nat, b: nat, d: nat)
    requires a < b && d >= 1
    ensures a * d < b * d
  {
  }

  /** Strict decoding undoes encoding, for every byte string. */
  lemma DecodeUndoesEncode(x: string)
    requires IsBytes(x)
    ensures Accepted(Encoded(x)) && Octets(Base64Spec.Body(Encoded(x))) == x
  {
    hide Joined, Spell, Number, Pow2, BytesOf, High, Low, Base64Spec.Body, Value, LettersOf, Spare, LetterCount, Fill;
    LettersOfShape(x);
    HighLowUnique(Number(x) * Pow2(Spare(|x|)), Spare(|x|), Number(x), 0);
    BytesOfNumber(x);
    FillBound(|x|);
  }

  lemma FillBound(n: nat)
    ensures Fill(LetterCount(n)) <= 6
  {
    var k, r := n / 5, n % 5;
    var c := if r == 0 then 0 else if r == 1 then 2 else if r == 2 then 4 else if r == 3 then 5 else 7;
    Quotient(8 * n + 4, 8 * k + c, 5, 8 * r + 4 - 5 * c);
    Quotient(8 * k + c, k, 8, c);
  }

  // ---- exactly which texts are accepted

  lemma {:induction false} NumberOfBytes(v: nat, count: nat)
    requires v < Pow2(8 * count)
    ensures var x := BytesOf(v, count); |x| == count && IsBytes(x) && Number(x) == v
  {
    hide Pow2;
    Pow2Small();
    if count > 0 {
      OneByte(v, count);
      NumberOfBytes(v / 256, count - 1);
      assert BytesOf(v, count)[..count - 1] == BytesOf(v / 256, count - 1);
    }
  }

  lemma OneByte(v: nat, count: nat)
    requires count > 0 && v < Pow2(8 * count)
    ensures v / 256 < Pow2(8 * (count - 1)) && v == v / 256 * 256 + v % 256
  {
    Pow2Small();
    Pow2Sum(8 * (count - 1), 8);
    Smaller(v / 256, Pow2(8 * (count - 1)), 256);
  }

  lemma {:induction false} JoinedBound(t: string)
    requires Quintets(t)
    ensures Joined(t) < Pow2(5 * |t|)
  {
    hide Value, Pow2;
    Pow2Small();
    if |t| > 0 {
      JoinedBound(t[..|t| - 1]);
      ValueLetter(t[|t| - 1]);
      Pow2Sum(5 * (|t| - 1), 5);
    }
  }

  lemma {:induction false} JoinedUppered(t: string)
    requires Quintets(t)
    ensures Quintets(Uppered(t)) && Joined(Uppered(t)) == Joined(t)
  {
    hide Value, Upper;
    forall i | 0 <= i < |t|
      ensures Value(Uppered(t)[i]) == Value(t[i])
    {
      ValueLetter(t[i]);
    }
    if |t| > 0 {
      JoinedUppered(t[..|t| - 1]);
      assert Uppered(t)[..|t| - 1] == Uppered(t[..|t| - 1]);
    }
  }

  /** The octets of a text, as a number: the letters' number without its low bits. */
  lemma OctetsNumber(t: string)
    requires Quintets(t)
    ensures var x := Octets(t);
            && IsBytes(x) && |x| == 5 * |t| / 8
            && Joined(t) == Number(x) * Pow2(5 * |t| % 8) + Low(Joined(t), 5 * |t| % 8)
  {
    hide Pow2, Number, Joined, BytesOf, High, Low;
    var n, b := 5 * |t| / 8, 5 * |t| % 8;
    JoinedBound(t);
    Pow2Sum(8 * n, b);
    HighLow(Joined(t), b);
    Smaller(High(Joined(t), b), Pow2(8 * n), Pow2(b));
    NumberOfBytes(High(Joined(t), b), n);
  }

  /** The letters of x, of either case, perhaps with one more letter of value 0 where it completes no byte. */
  ghost predicate SpelledLoosely(t: string, x: string) {
    Uppered(t) == LettersOf(x) || (Spare(|x|) <= 2 && Uppered(t) == LettersOf(x) + "A")
  }

  lemma CountOf(l: nat, n: nat, b: nat)
    requires 5 * l == 8 * n + b && b < 5
    ensures l == LetterCount(n) && b == Spare(n)
  {
    Quotient(8 * n + 4, l, 5, 4 - b);
  }

  /** A strictly decoded text spells its bytes, up to case and one spare letter. */
  lemma AcceptedSpells(t: string)
    requires Quintets(t) && NothingLost(t)
    ensures IsBytes(Octets(t)) && SpelledLoosely(t, Octets(t))
  {
    hide Pow2, Number, Joined, Octets, Value, Spell, LetterCount, Spare, Low, Upper;
    var x, b := Octets(t), 5 * |t| % 8;
    OctetsNumber(t);
    SpellJoined(t);
    if b < 5 {
      CountOf(|t|, |x|, b);
    } else {
      var f, c := t[..|t| - 1], t[|t| - 1];
      CountOf(|f|, |x|, b - 5);
      Pow2Small();
      Pow2Sum(b - 5, 5);
      LastIsZero(t, Number(x) * Pow2(b - 5));
      SpellJoined(f);
    }
  }

  lemma LastIsZero(t: string, v: nat)
    requires |t| > 0 && Quintets(t) && Joined(t) == v * 32
    ensures Joined(t[..|t| - 1]) == v && Uppered(t) == Uppered(t[..|t| - 1]) + "A"
  {
    hide Upper, Value;
    var n := |t| - 1;
    ValueLetter(t[n]);
    Quotient(Joined(t), Joined(t[..n]), 32, Value(t[n]));
    Quotient(Joined(t), v, 32, 0);
    assert Letter(0) == 'A';
    assert Uppered(t) == Uppered(t[..n]) + [Upper(t[n])];
  }

  /** And whatever spells bytes so is strictly decoded to them. */
  lemma SpellsAccepted(t: string, x: string)
    requires IsBytes(x) && SpelledLoosely(t, x) && Quintets(t)
    ensures NothingLost(t) && Octets(t) == x
  {
    hide Pow2, Number, Joined, Value, Spell, LetterCount, Spare, Low, High, Upper, BytesOf, LettersOf;
    LettersOfShape(x);
    CountFacts(|x|);
    JoinedUppered(t);
    BytesOfNumber(x);
    var u, k := LettersOf(x), Spare(|x|);
    if Uppered(t) == u {
      HighLowUnique(Joined(t), k, Number(x), 0);
    } else {
      assert Uppered(t)[..|u|] == u && |t| == |u| + 1;
      JoinedMore(Uppered(t));
      Pow2Small();
      Pow2Sum(k, 5);
      Quotient(5 * |t|, |x|, 8, k + 5);
      assert Joined(t) == Number(x) * (Pow2(k) * 32) + 0;
      HighLowUnique(Joined(t), k + 5, Number(x), 0);
    }
  }

  lemma JoinedMore(t: string)
    requires |t| > 0 && Quintets(t) && t[|t| - 1] == 'A'
    ensures Joined(t) == Joined(t[..|t| - 1]) * 32
  {
  }

  /** Strict decoding takes exactly these texts; it does not ask for canonical ones. */
  lemma AcceptedIff(text: string)
    ensures Accepted(text) <==>
            var t := Base64Spec.Body(text);
            |text| - |t| <= 6 && Quintets(t) && exists x: string :: IsBytes(x) && SpelledLoosely(t, x)
  {
    hide SpelledLoosely, Quintets, NothingLost, Base64Spec.Body, Octets;
    var t := Base64Spec.Body(text);
    if Quintets(t) && NothingLost(t) {
      AcceptedSpells(t);
    }
    if Quintets(t) {
      forall x: string | IsBytes(x) && SpelledLoosely(t, x)
        ensures NothingLost(t)
      {
        SpellsAccepted(t, x);
      }
    }
  }

  /** Upper case, complete padding, and no letter that completes no byte. */
  predicate Canonical(text: string) {
    var t := Base64Spec.Body(text);
    Uppered(t) == t && |text| == |t| + Fill(|t|) && 5 * |t| % 8 < 5
  }

  lemma EncodedIsCanonical(x: string)
    requires IsBytes(x)
    ensures Canonical(Encoded(x))
  {
    hide LettersOf, Base64Spec.Body, Joined, Number, Pow2, Uppered;
    LettersOfShape(x);
  }

  lemma LooseIsExact(t: string, x: string)
    requires IsBytes(x) && SpelledLoosely(t, x) && Uppered(t) == t && 5 * |t| % 8 < 5
    ensures t == LettersOf(x)
  {
    hide LettersOf, Joined, Number, Pow2, Value, Spare, LetterCount;
    LettersOfShape(x);
    CountFacts(|x|);
    if t != LettersOf(x) {
      assert |Uppered(t)| == |t|;
      Quotient(5 * |t|, |x|, 8, Spare(|x|) + 5);
    }
  }

  /** A strictly accepted text is the encoding of some byte string exactly when it is canonical. */
  lemma CanonicalIff(text: string)
    requires Accepted(text)
    ensures (exists x: string :: IsBytes(x) && Encoded(x) == text) <==> Canonical(text)
  {
    hide Octets, SpelledLoosely, Base64Spec.Body, NothingLost, Quintets, Canonical, Encoded;
    forall x: string | IsBytes(x) && Encoded(x) == text
      ensures Canonical(text)
    {
      EncodedIsCanonical(x);
    }
    if Canonical(text) {
      CanonicalEncodes(text);
    }
  }

  lemma CanonicalEncodes(text: string)
    requires Accepted(text) && Canonical(text)
    ensures var x := Octets(Base64Spec.Body(text)); IsBytes(x) && Encoded(x) == text
  {
    hide Octets, SpelledLoosely, Base64Spec.Body, Quintets, NothingLost, LettersOf, Uppered, Pow2, Number, Joined,
        Spare, LetterCount, Value, Spell;
    var t := Base64Spec.Body(text);
    var x := Octets(t);
    AcceptedSpells(t);
    LooseIsExact(t, x);
    LettersOfShape(x);
    Base64Spec.BodyIsFront(text);
    assert text == t + seq(Fill(|t|), _ => '=');
  }

  lemma OneSpareLetter(t: string)
    requires |t| == 1 && t[0] == 'A'
    ensures Quintets(t) && Base64Spec.Body(t) == t && Uppered(t) == "A" && !Canonical(t)
  {
  }

  lemma NoLetters(x: string)
    requires |x| == 0
    ensures |LettersOf(x)| == 0 && Spare(|x|) == 0
  {
    hide Pow2, Number;
  }

  lemma NoText(x: string)
    requires |x| == 0
    ensures |Encoded(x)| == 0
  {
    hide LettersOf, Pow2, Spare, Number;
    NoLetters(x);
    assert LetterCount(|x|) == 0 && Fill(0) == 0;
  }

  lemma SpareIsLoose(t: string, x: string)
    ensures Uppered(t) == "A" && |LettersOf(x)| == 0 && Spare(|x|) == 0 ==> SpelledLoosely(t, x)
  {
    hide LettersOf, Uppered, Spare;
    assert |LettersOf(x)| == 0 ==> LettersOf(x) + "A" == "A";
  }

  /** So decoding then encoding may change a text: this one decodes to nothing. */
  lemma NotCanonical(t: string)
    requires t == "A"
    ensures Accepted(t) && |Octets(t)| == 0 && Encoded(Octets(t)) != t && !Canonical(t)
  {
    hide Pow2, Number, Joined, Octets, NothingLost, Low, High, BytesOf, LettersOf, Base64Spec.Body, Encoded,
        SpelledLoosely, Quintets, Uppered, Spare, Canonical;
    OneSpareLetter(t);
    NoLetters([]);
    NoText([]);
    SpareIsLoose(t, []);
    SpellsAccepted(t, []);
  }
}

/** The encoder's and the decoder's loops over a 32-bit buffer. */
module Base32 {
  import opened Arithmetic
  import opened Bytes
  import opened Wrappers
  import opened Base32Spec
  import Base64Spec

  /** Letters out so far and bits still in the buffer make up the bytes read. */
  ghost predicate Encoding(x: string, buffer: nat, bits: nat, out: string) {
    && buffer < 0x1_0000_0000 && Quintets(out) && Uppered(out) == out
    && 5 * |out| + bits == 8 * |x|
    && Joined(out) * Pow2(bits) + Low(buffer, bits) == Number(x)
  }

  lemma PushBits(buffer: nat, bits: nat, v: nat, more: nat)
    requires buffer < 0x1_0000_0000 && v < Pow2(more) && bits + more <= 32
    ensures var next := buffer * Pow2(more) % 0x1_0000_0000 + v;
            next < 0x1_0000_0000 && Low(next, bits + more) == Low(buffer, bits) * Pow2(more) + v
  {
    hide Pow2;
    Pow2Small();
    Pow2Sum(32 - more - bits, bits);
    Pow2Sum(32 - more, more);
    Pow2Sum(more, bits);
    PushDropping(buffer, v, Pow2(more), Pow2(bits), Pow2(32 - more - bits));
  }

  /** The next five bits of the buffer, from the top. */
  lemma TakeFive(buffer: nat, bits: nat)
    requires bits >= 5
    ensures var v := High(buffer, bits - 5) % 32; Low(buffer, bits) == v * Pow2(bits - 5) + Low(buffer, bits - 5)
  {
    hide Pow2;
    Pow2Small();
    Pow2Sum(bits - 5, 5);
    var d := Pow2(bits - 5);
    Place(buffer, d, 32);
    Trim(buffer, d, 32);
    var low := buffer % (d * 32);
    assert low == low / d * d + low % d;
    assert d * 32 == 32 * d;
  }

  lemma FeedByte(raw: string, i: nat, buffer: nat, bits: nat, out: string)
    requires IsBytes(raw) && i < |raw| && Encoding(raw[..i], buffer, bits, out) && bits < 5
    ensures var next := buffer * 256 % 0x1_0000_0000 + raw[i] as int; Encoding(raw[..i + 1], next, bits + 8, out)
  {
    hide Pow2, Low, Joined, Uppered, Quintets;
    Pow2Small();
    PushBits(buffer, bits, raw[i] as int, 8);
    Pow2Sum(bits, 8);
    assert raw[..i + 1][..i] == raw[..i];
    assert Number(raw[..i + 1]) == Number(raw[..i]) * 256 + raw[i] as int;
    Spread(Joined(out), Pow2(bits), Low(buffer, bits), 256);
  }

  lemma Spread(a: int, p: int, b: int, c: int)
    ensures (a * p + b) * c == a * (p * c) + b * c
  {
  }

  lemma JoinedLetter(out: string, v: nat)
    requires Quintets(out) && v < 32
    ensures Quintets(out + [Letter(v)]) && Joined(out + [Letter(v)]) == Joined(out) * 32 + v
    ensures Uppered(out) == out ==> Uppered(out + [Letter(v)]) == out + [Letter(v)]
  {
    hide Value, Letter, Upper;
    LetterValue(v);
    ValueLetter(Letter(v));
    assert (out + [Letter(v)])[..|out|] == out;
  }

  lemma OutLetter(x: string, buffer: nat, bits: nat, out: string)
    requires Encoding(x, buffer, bits, out) && bits >= 5
    ensures Encoding(x, buffer, bits - 5, out + [Letter(High(buffer, bits - 5) % 32)])
  {
    hide Pow2, Low, High, Joined, Uppered, Quintets, Letter, Number;
    var v, p := High(buffer, bits - 5) % 32, Pow2(bits - 5);
    TakeFive(buffer, bits);
    JoinedLetter(out, v);
    Pow2Small();
    Pow2Sum(bits - 5, 5);
    Spread(Joined(out), 32, v, p);
  }

  /** The bits left at the end, moved to the top of the last letter. */
  function LastLetter(buffer: nat, bits: nat): (v: nat)
    requires 0 < bits < 5
    ensures v < 32
  {
    Mod(buffer * Pow2(5 - bits), 0x1_0000_0000) % 32
  }

  lemma OutLast(x: string, buffer: nat, bits: nat, out: string)
    requires IsBytes(x) && Encoding(x, buffer, bits, out) && 0 < bits < 5
    ensures out + [Letter(LastLetter(buffer, bits))] == LettersOf(x)
  {
    hide Pow2, High, Joined, Uppered, Quintets, Letter, Number, Spell, LetterCount, Spare;
    var v, p := LastLetter(buffer, bits), Pow2(5 - bits);
    Pow2Small();
    PushBits(buffer, bits, 0, 5 - bits);
    assert v == Low(buffer, bits) * p;
    JoinedLetter(out, v);
    Pow2Sum(bits, 5 - bits);
    Spread(Joined(out), Pow2(bits), Low(buffer, bits), p);
    var t := out + [Letter(v)];
    CountOf(|t|, |x|, 5 - bits);
    SpellJoined(t);
  }

  lemma OutNone(x: string, buffer: nat, out: string)
    requires Encoding(x, buffer, 0, out)
    ensures out == LettersOf(x)
  {
    hide High, Joined, Uppered, Quintets, Letter, Number, Spell, LetterCount, Spare;
    CountOf(|out|, |x|, 0);
    SpellJoined(out);
    HighLowUnique(buffer, 0, buffer, 0);
  }

  method FillUp(letters: string) returns (out: string)
    ensures out == letters + seq(Fill(|letters|), _ => '=')
  {
    out := letters;
    ghost var pads := 0;
    while |out| % 8 != 0
      invariant |out| == |letters| + pads && pads <= Fill(|letters|)
      invariant out == letters + seq(pads, _ => '=')
      decreases Fill(|letters|) - pads
    {
      out := out + "=";
      pads := pads + 1;
    }
  }

  method Encode(raw: string) returns (out: string)
    requires IsBytes(raw)
    ensures out == Encoded(raw)
  {
    hide Encoding, LettersOf, Low, High, Letter, Pow2, LastLetter, Encoded, Number, Fill;
    out := "";
    var buffer: nat, bits: nat := 0, 0;
    var i := 0;
    EncodeNone(raw);
    while i < |raw|
      invariant 0 <= i <= |raw| && bits < 5 && Encoding(raw[..i], buffer, bits, out)
    {
      FeedByte(raw, i, buffer, bits, out);
      buffer := buffer * 256 % 0x1_0000_0000 + raw[i] as int;
      bits := bits + 8;
      while bits >= 5
        invariant Encoding(raw[..i + 1], buffer, bits, out)
      {
        OutLetter(raw[..i + 1], buffer, bits, out);
        out := out + [Letter(High(buffer, bits - 5) % 32)];
        bits := bits - 5;
      }
      i := i + 1;
    }
    assert raw[..i] == raw;
    if bits > 0 {
      OutLast(raw, buffer, bits, out);
      out := out + [Letter(LastLetter(buffer, bits))];
    } else {
      OutNone(raw, buffer, out);
    }
    out := FillUp(out);
    EncodedFrom(raw);
  }

  lemma EncodedFrom(x: string)
    requires IsBytes(x)
    ensures LettersOf(x) + seq(Fill(|LettersOf(x)|), _ => '=') == Encoded(x)
  {
    hide LettersOf;
    LettersOfShape(x);
  }

  lemma EncodeNone(raw: string)
    ensures Encoding(raw[..0], 0, 0, "")
  {
  }

  // ---- decoding

  /** The letters of a text, without everything else. */
  function Kept(text: string): (t: string)
    ensures Quintets(t)
  {
    if |text| == 0 then ""
    else
      var front := Kept(text[..|text| - 1]);
      if Value(text[|text| - 1]) >= 0 then front + [text[|text| - 1]] else front
  }

  /** How many '=' have come since the last letter. */
  function Padding(text: string): nat {
    if |text| == 0 then 0
    else if text[|text| - 1] == '=' then Padding(text[..|text| - 1]) + 1
    else if Value(text[|text| - 1]) >= 0 then 0
    else Padding(text[..|text| - 1])
  }

  /** Never more than six of them. */
  ghost predicate FewPads(text: string) {
    forall i :: 0 <= i <= |text| ==> Padding(text[..i]) <= 6
  }

  /** What lenient decoding makes of a text. */
  ghost function Lenient(text: string): Option<string> {
    if FewPads(text) then Some(Octets(Kept(text))) else None
  }

  /** Bytes out so far and bits still in the buffer make up the letters read. */
  ghost predicate Decoding(t: string, buffer: nat, bits: nat, out: string)
    requires Quintets(t)
  {
    && buffer < 0x1_0000_0000 && IsBytes(out)
    && 8 * |out| + bits == 5 * |t|
    && Number(out) * Pow2(bits) + Low(buffer, bits) == Joined(t)
  }

  lemma FeedLetter(t: string, c: char, buffer: nat, bits: nat, out: string)
    requires Quintets(t) && Value(c) >= 0 && Decoding(t, buffer, bits, out) && bits < 8
    ensures Quintets(t + [c]) && Value(c) < 32
    ensures Decoding(t + [c], buffer * 32 % 0x1_0000_0000 + Value(c), bits + 5, out)
  {
    hide Pow2, Low, Number, Value;
    ValueLetter(c);
    Pow2Small();
    PushBits(buffer, bits, Value(c), 5);
    Pow2Sum(bits, 5);
    assert (t + [c])[..|t|] == t;
    Spread(Number(out), Pow2(bits), Low(buffer, bits), 32);
  }

  lemma TakeEight(buffer: nat, bits: nat)
    requires bits >= 8
    ensures var v := High(buffer, bits - 8) % 256; Low(buffer, bits) == v * Pow2(bits - 8) + Low(buffer, bits - 8)
  {
    hide Pow2;
    Pow2Small();
    Pow2Sum(bits - 8, 8);
    var d := Pow2(bits - 8);
    Place(buffer, d, 256);
    Trim(buffer, d, 256);
    var low := buffer % (d * 256);
    assert low == low / d * d + low % d;
    assert d * 256 == 256 * d;
  }

  lemma OutByte(t: string, buffer: nat, bits: nat, out: string)
    requires Quintets(t) && Decoding(t, buffer, bits, out) && bits >= 8
    ensures Decoding(t, buffer, bits - 8, out + [(High(buffer, bits - 8) % 256) as char])
  {
    hide Pow2, Low, High, Joined, Quintets;
    var v, p := High(buffer, bits - 8) % 256, Pow2(bits - 8);
    TakeEight(buffer, bits);
    var more := out + [v as char];
    assert more[..|out|] == out;
    assert Number(more) == Number(out) * 256 + v;
    Pow2Small();
    Pow2Sum(bits - 8, 8);
    Spread(Number(out), 256, v, p);
  }

  lemma OutAll(t: string, buffer: nat, bits: nat, out: string)
    requires Quintets(t) && Decoding(t, buffer, bits, out) && bits < 8
    ensures out == Octets(t) && (Low(buffer, bits) == 0 <==> NothingLost(t))
  {
    hide Pow2, Joined, Number, BytesOf;
    Quotient(5 * |t|, |out|, 8, bits);
    HighLow(buffer, bits);
    HighLowUnique(Joined(t), bits, Number(out), Low(buffer, bits));
    BytesOfNumber(out);
  }

  /** Strictly, what has been read is letters and then '='. */
  ghost predicate Tidy(text: string, t: string, padding: nat) {
    |text| == |t| + padding && text[..|t|] == t && forall i :: |t| <= i < |text| ==> text[i] == '='
  }

  lemma ForeignIsRefused(text: string, i: nat)
    requires i < |text| && text[i] != '=' && Value(text[i]) < 0
    ensures !Accepted(text)
  {
    var t := Base64Spec.Body(text);
    Base64Spec.BodyIsFront(text);
    assert t[i] == text[i];
  }

  lemma LetterAfterPadIsRefused(text: string, i: nat)
    requires 0 < i < |text| && text[i - 1] == '=' && text[i] != '='
    ensures !Accepted(text)
  {
    var t := Base64Spec.Body(text);
    Base64Spec.BodyIsFront(text);
    assert t[i - 1] == '=' && Value('=') < 0;
  }

  lemma ManyPadsAreRefused(text: string, n: nat, i: nat)
    requires n + 6 == i < |text| && (forall k :: n <= k <= i ==> text[k] == '=')
    ensures !Accepted(text)
  {
    var t := Base64Spec.Body(text);
    Base64Spec.BodyIsFront(text);
    if |t| > n {
      assert t[n] == '=' && Value('=') < 0;
    }
  }

  lemma TidyEnd(text: string, t: string, padding: nat)
    requires Tidy(text, t, padding) && Quintets(t)
    ensures Base64Spec.Body(text) == t
  {
    if |t| > 0 {
      ValueLetter(t[|t| - 1]);
    }
    Base64Spec.BodyOf(t, text);
  }

  method Decode(text: string, strict: bool) returns (ok: bool, out: string)
    ensures strict ==> (ok <==> Accepted(text)) && (ok ==> out == Octets(Base64Spec.Body(text)))
    ensures !strict ==> (if ok then Some(out) else None) == Lenient(text)
  {
    hide Value, Decoding, Octets, Low, High, Pow2, Accepted, Base64Spec.Body, Kept, Padding, NothingLost;
    out := "";
    var buffer: nat, bits: nat := 0, 0;
    var padding := 0;
    ghost var t := "";
    var i := 0;
    DecodeNone(text);
    while i < |text|
      invariant 0 <= i <= |text| && bits < 8
      invariant t == Kept(text[..i]) && Quintets(t) && Decoding(t, buffer, bits, out)
      invariant padding == Padding(text[..i]) && forall k :: 0 <= k <= i ==> Padding(text[..k]) <= 6
      invariant strict ==> Tidy(text[..i], t, padding)
    {
      var c := text[i];
      ReadMore(text, i);
      i := i + 1;
      if c == '=' || c == ' ' || c == '\t' || c == '\r' || c == '\n' {
        if c == '=' {
          padding := padding + 1;
          if padding > 6 {
            if strict { ManyPadsAreRefused(text, |t|, i - 1); }
            return false, out;
          }
        } else if strict {
          ForeignIsRefused(text, i - 1);
          return false, out;
        }
        continue;
      }
      var v := Value(c);
      if v < 0 {
        if strict {
          ForeignIsRefused(text, i - 1);
          return false, out;
        }
        continue;
      }
      if padding > 0 {
        if strict {
          LetterAfterPadIsRefused(text, i - 1);
          return false, out;
        }
        padding := 0;
      }
      FeedLetter(t, c, buffer, bits, out);
      t := t + [c];
      buffer := buffer * 32 % 0x1_0000_0000 + v;
      bits := bits + 5;
      if bits >= 8 {
        OutByte(t, buffer, bits, out);
        out := out + [(High(buffer, bits - 8) % 256) as char];
        bits := bits - 8;
      }
    }
    assert text[..i] == text;
    OutAll(t, buffer, bits, out);
    if strict {
      TidyEnd(text, t, padding);
      AcceptedTidy(text, t, padding);
    }
    if strict && bits > 0 && Low(buffer, bits) != 0 {
      return false, out;
    }
    NoBits(buffer);
    ok := true;
  }

  lemma NoBits(buffer: nat)
    ensures Low(buffer, 0) == 0
  {
    HighLowUnique(buffer, 0, buffer, 0);
  }

  lemma DecodeNone(text: string)
    ensures text[..0] == "" && Kept("") == "" && Padding("") == 0 && Decoding("", 0, 0, "")
  {
    HighLowUnique(0, 0, 0, 0);
  }

  lemma ReadMore(text: string, i: nat)
    requires i < |text|
    ensures var c := text[i];
            && Kept(text[..i + 1]) == (if Value(c) >= 0 then Kept(text[..i]) + [c] else Kept(text[..i]))
            && Padding(text[..i + 1]) ==
                (if c == '=' then Padding(text[..i]) + 1 else if Value(c) >= 0 then 0 else Padding(text[..i]))
            && (c == '=' || c == ' ' || c == '\t' || c == '\r' || c == '\n' ==> Value(c) < 0)
  {
    assert text[..i + 1][..i] == text[..i];
  }

  lemma AcceptedTidy(text: string, t: string, padding: nat)
    requires Base64Spec.Body(text) == t && |text| == |t| + padding && padding <= 6 && Quintets(t)
    ensures Accepted(text) <==> NothingLost(t)
  {
  }

  /**
   Lenient decoding sees through the case of the letters and whatever stands between them,
   but for seven padding characters without a letter among them.
   */
  lemma NoiseIsIgnored(text: string, x: string)
    ensures IsBytes(x) && Uppered(Kept(text)) == LettersOf(x) ==> (Lenient(text) == Some(x) <==> FewPads(text))
  {
    hide Kept, Octets, LettersOf, FewPads;
    if IsBytes(x) && Uppered(Kept(text)) == LettersOf(x) {
      SpellsAccepted(Kept(text), x);
    }
  }
}
