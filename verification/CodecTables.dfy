/** The codecs' letters as RFC 4648 prints them, and the bit groups they stand for. */
module CodecTables {
  import opened Arithmetic
  import opened Bytes
  import Base32Spec
  import Base64Spec
  import Base64Url
  import Charset
  import Hex
  import UrlEncode

  /** Tables 1 to 3 and section 8 of RFC 4648. */
  const CAPITALS := "ABCDEFGHIJKLMNOPQRSTUVWXYZ"
  const SMALL := "abcdefghijklmnopqrstuvwxyz"
  const DIGITS := "0123456789"
  const BASE64 := CAPITALS + SMALL + DIGITS + "+/"
  const BASE64URL := CAPITALS + SMALL + DIGITS + "-_"
  const BASE32 := "ABCDEFGHIJKLMNOPQRSTUVWXYZ234567"
  const HEX := "0123456789ABCDEF"
  const HEXLOWER := "0123456789abcdef"

  lemma Base64Alphabet(v: nat)
    requires v < 64
    ensures |BASE64| == |BASE64URL| == 64
    ensures Base64Spec.Letter(v) == BASE64[v] && Base64Url.Dash(Base64Spec.Letter(v)) == BASE64URL[v]
  {
    if v < 26 {
      assert BASE64[v] == BASE64URL[v] == CAPITALS[v];
    } else if v < 52 {
      assert BASE64[v] == BASE64URL[v] == SMALL[v - 26];
    } else if v < 62 {
      assert BASE64[v] == BASE64URL[v] == DIGITS[v - 52];
    }
  }

  lemma Base32Alphabet(v: nat)
    requires v < 32
    ensures Base32Spec.Letter(v) == BASE32[v]
  {
  }

  lemma HexAlphabet(v: nat)
    requires v < 16
    ensures Hex.Digit(v, false) == HEX[v] && Hex.Digit(v, true) == HEXLOWER[v]
  {
  }

  // ---- Base64

  /** Three bytes as one number, the first one highest; missing bytes count as zero. */
  function Group24(x: string, q: nat): int {
    (Base64Spec.At(x, 3 * q) * 256 + Base64Spec.At(x, 3 * q + 1)) * 256 + Base64Spec.At(x, 3 * q + 2)
  }

  /** Digit i of a 24-bit number in base 64, the highest one first. */
  function Digit64(n: int, i: nat): int
    requires i < 4
  {
    if i == 0 then n / 262144 else if i == 1 then n / 4096 % 64 else if i == 2 then n / 64 % 64 else n % 64
  }

  lemma SextetIsDigit(x: string, q: nat, i: nat)
    requires IsBytes(x) && i < 4
    ensures 0 <= Digit64(Group24(x, q), i) < 64
    ensures Base64Spec.Sextet(x, 4 * q + i) == Digit64(Group24(x, q), i)
  {
    assert (4 * q + i) / 4 == q && (4 * q + i) % 4 == i;
    var a, b, c := Base64Spec.At(x, 3 * q), Base64Spec.At(x, 3 * q + 1), Base64Spec.At(x, 3 * q + 2);
    Digits(a, b, c);
  }

  lemma Digits(a: int, b: int, c: int)
    requires 0 <= a < 256 && 0 <= b < 256 && 0 <= c < 256
    ensures var n := (a * 256 + b) * 256 + c;
            && Digit64(n, 0) == a / 4 && Digit64(n, 1) == a % 4 * 16 + b / 16
            && Digit64(n, 2) == b % 16 * 4 + c / 64 && Digit64(n, 3) == c % 64
  {
    var n := (a * 256 + b) * 256 + c;
    Quotient(n, a / 4, 262144, a % 4 * 65536 + b * 256 + c);
    Quotient(n, a * 16 + b / 16, 4096, b % 16 * 256 + c);
    Quotient(a * 16 + b / 16, a / 4, 64, a % 4 * 16 + b / 16);
    Quotient(n, a * 1024 + b * 4 + c / 64, 64, c % 64);
    Quotient(a * 1024 + b * 4 + c / 64, a * 16 + b / 16, 64, b % 16 * 4 + c / 64);
  }

  /**
   Letter j of an encoding is a digit of its group of three bytes; there are as many letters as
   the bits take, and then as many '=' as make the length a multiple of four.
   */
  lemma Base64Letters(x: string, j: nat)
    requires IsBytes(x) && j < |Base64Spec.Encoded(x)|
    ensures var t, letters := Base64Spec.Encoded(x), (8 * |x| + 5) / 6;
            && |t| == (|x| + 2) / 3 * 4
            && 0 <= Digit64(Group24(x, j / 4), j % 4) < 64
            && t[j] == if j < letters then BASE64[Digit64(Group24(x, j / 4), j % 4)] else '='
  {
    hide Base64Spec.Sextet, Base64Spec.Letter, Group24, Digit64;
    Base64Length(|x|);
    SextetIsDigit(x, j / 4, j % 4);
    assert 4 * (j / 4) + j % 4 == j;
    Base64Alphabet(Digit64(Group24(x, j / 4), j % 4));
  }

  lemma Base64Length(n: nat)
    ensures Base64Spec.Letters(n) == (8 * n + 5) / 6 && Base64Spec.Letters(n) + Base64Spec.Pads(n) == (n + 2) / 3 * 4
  {
    var q, r := n / 3, n % 3;
    Quotient(4 * n + 2, 4 * q + (4 * r + 2) / 3, 3, (4 * r + 2) % 3);
    Quotient(8 * n + 5, 4 * q + (8 * r + 5) / 6, 6, (8 * r + 5) % 6);
    Quotient(n + 2, q + (r + 2) / 3, 3, (r + 2) % 3);
  }

  // ---- Base32

  function Pow32(k: nat): nat {
    if k == 0 then 1 else 32 * Pow32(k - 1)
  }

  /** Byte k of n from the top of a string counts 256 to the bytes after it. */
  lemma {:induction false} NumberPlaces(x: string, y: string)
    ensures Base32Spec.Number(x + y) == Base32Spec.Number(x) * Exp256(|y|) + Base32Spec.Number(y)
    ensures |y| == 1 ==> Base32Spec.Number(y) == y[0] as int
    decreases |y|
  {
    hide Exp256;
    NoExp256();
    if |y| == 0 {
      assert x + y == x;
    } else {
      var n := |y| - 1;
      NumberPlaces(x, y[..n]);
      assert (x + y)[..|x + y| - 1] == x + y[..n] && (x + y)[|x + y| - 1] == y[n];
      MoreExp256(Base32Spec.Number(x), n);
      assert n == 0 ==> Base32Spec.Number(y[..n]) == 0;
    }
  }

  lemma MoreExp256(a: nat, k: nat)
    ensures a * Exp256(k) * 256 == a * Exp256(k + 1)
  {
  }

  lemma NoExp256()
    ensures Exp256(0) == 1
  {
  }

  function Exp256(k: nat): nat {
    if k == 0 then 1 else 256 * Exp256(k - 1)
  }

  /** Letter i of count is the digit in base 32 that has count - 1 - i digits below it. */
  lemma {:induction false} SpellDigit(v: nat, count: nat, i: nat)
    requires i < count
    ensures |Base32Spec.Spell(v, count)| == count
    ensures Pow32(count - 1 - i) > 0
    ensures Base32Spec.Spell(v, count)[i] == BASE32[v / Pow32(count - 1 - i) % 32]
    decreases count
  {
    hide Base32Spec.Letter, Pow32;
    Base32Alphabet(v % 32);
    SpellLength(v / 32, count - 1);
    if i < count - 1 {
      SpellDigit(v / 32, count - 1, i);
      MorePow32(count - 1 - i);
      DivTwice(v, Pow32(count - 2 - i));
    } else {
      NoPow32();
    }
  }

  lemma MorePow32(k: nat)
    requires k > 0
    ensures Pow32(k) == 32 * Pow32(k - 1)
  {
  }

  lemma NoPow32()
    ensures Pow32(0) == 1
  {
  }

  lemma DivTwice(v: nat, d: nat)
    requires d > 0
    ensures v / 32 / d == v / (32 * d)
  {
    var q, r := v / 32, v % 32;
    var a, b := q / d, q % d;
    assert q == a * d + b;
    assert v == 32 * (a * d + b) + r;
    assert 32 * (a * d) == a * (32 * d);
    Quotient(v, a, 32 * d, 32 * b + r);
  }

  /**
   Letter i of an encoding is a digit, the highest first, of the bytes as one number, with zero
   bits behind it that complete the last letter; '=' fills up the last group of eight.
   */
  lemma Base32Letters(x: string, i: nat)
    requires i < |Base32Spec.Encoded(x)|
    ensures var t, letters := Base32Spec.Encoded(x), (8 * |x| + 4) / 5;
            && |t| == (letters + 7) / 8 * 8 && 5 * letters >= 8 * |x|
            && (i < letters ==> Pow32(letters - 1 - i) > 0)
            && t[i] == if i < letters
                       then BASE32[Base32Spec.Number(x) * Pow2(5 * letters - 8 * |x|) / Pow32(letters - 1 - i) % 32]
                       else '='
  {
    hide Base32Spec.Number, Base32Spec.Spell, Pow2, Pow32;
    var letters := (8 * |x| + 4) / 5;
    var n := Base32Spec.Number(x) * Pow2(5 * letters - 8 * |x|);
    SpellLength(n, letters);
    if i < letters {
      SpellDigit(n, letters, i);
    }
    Filled(letters);
  }

  lemma Filled(letters: nat)
    ensures letters + Base32Spec.Fill(letters) == (letters + 7) / 8 * 8
  {
  }

  lemma {:induction false} SpellLength(v: nat, count: nat)
    ensures |Base32Spec.Spell(v, count)| == count
    decreases count
  {
    if count > 0 {
      SpellLength(v / 32, count - 1);
    }
  }

  // ---- hexadecimal and form encoding

  lemma HexLetters(x: string, k: nat, lower: bool)
    requires IsBytes(x) && k < |x|
    ensures var (t, digits) := (Hex.Encoded(x, lower), if lower then HEXLOWER else HEX);
            |t| == 2 * |x| && t[2 * k] == digits[x[k] as int / 16] && t[2 * k + 1] == digits[x[k] as int % 16]
  {
    hide Hex.Digit;
    Hex.NibblesOf(x, k);
    HexAlphabet(x[k] as int / 16);
    HexAlphabet(x[k] as int % 16);
  }

  lemma Capital(c: char)
    ensures c in CAPITALS <==> 'A' <= c <= 'Z'
  {
    if 'A' <= c <= 'Z' {
      assert CAPITALS[c as int - 65] == c;
    }
  }

  lemma Small(c: char)
    ensures c in SMALL <==> 'a' <= c <= 'z'
  {
    if 'a' <= c <= 'z' {
      assert SMALL[c as int - 97] == c;
    }
  }

  lemma Decimal(c: char)
    ensures c in DIGITS <==> '0' <= c <= '9'
  {
    if '0' <= c <= '9' {
      assert DIGITS[c as int - 48] == c;
    }
  }

  /** Letters, digits and four signs. */
  predicate Safe(c: char) {
    c in CAPITALS || c in SMALL || c in DIGITS || c == '-' || c == '_' || c == '.' || c == '~'
  }

  lemma SafeIsUnreserved(c: char)
    ensures Safe(c) <==> UrlEncode.Unreserved(c)
  {
    Capital(c);
    Small(c);
    Decimal(c);
  }

  /** Safe characters stand for themselves, a space for a plus, any other byte for an escape. */
  lemma FormLetters(c: char)
    requires c as int < 256
    ensures UrlEncode.Spelled(c) ==
            if c == ' ' then "+" else if Safe(c) then [c] else ['%', HEX[c as int / 16], HEX[c as int % 16]]
  {
    hide Safe, UrlEncode.Unreserved, Hex.Digit;
    SafeIsUnreserved(c);
    HexAlphabet(c as int / 16);
    HexAlphabet(c as int % 16);
  }

  // ---- UTF-16

  /** A character above the basic plane is a high and a low surrogate, ten bits each of what it is above it. */
  lemma SurrogatesMean(c: int)
    requires 65536 <= c <= 1114111
    ensures var us := Charset.UnitsOf(c);
            && |us| == 2 && 55296 <= us[0] < 56320 <= us[1] < 57344
            && c == 65536 + (us[0] - 55296) * 1024 + (us[1] - 56320)
  {
  }

  lemma UnitBytesMean(u: int, littleEndian: bool)
    requires 0 <= u < 65536
    ensures var b := Charset.UnitBytes(u, littleEndian);
            && |b| == 2 && u == (if littleEndian then b[1] as int * 256 + b[0] as int
                                 else b[0] as int * 256 + b[1] as int)
            && b[0] as int < 256 && b[1] as int < 256
  {
  }
}
