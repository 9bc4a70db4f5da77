/** Strict UTF-8 decoding of one character. */
module Utf8 {
  import opened Bytes

  datatype Decoded = Invalid | Valid(length: nat, codePoint: nat)

  /** How many bytes the first byte announces; 0 for a byte that cannot come first. */
  function Announced(first: Byte): nat {
    if first < 0x80 then 1
    else if first & 0xE0 == 0xC0 then 2
    else if first & 0xF0 == 0xE0 then 3
    else if first & 0xF8 == 0xF0 then 4
    else 0
  }

  /** The payload bits of the first byte of a longer form. */
  function Payload(first: Byte, length: nat): nat {
    if length == 2 then (first & 0x1F) as nat else if length == 3 then (first & 0x0F) as nat else (first & 0x07) as nat
  }

  /** The first k bytes at pos, each continuation byte adding six bits; None where one is malformed. */
  function Accumulated(s: seq<Byte>, pos: nat, length: nat, k: nat): (r: (bool, nat))
    requires 1 <= k <= length && pos + length <= |s|
  {
    if k == 1 then (true, Payload(s[pos], length)) else
    var (ok, value) := Accumulated(s, pos, length, k - 1);
    var cont := s[pos + k - 1];
    (ok && cont & 0xC0 == 0x80, 64 * value + (cont & 0x3F) as nat)
  }

  function MinCodePoint(length: nat): nat {
    if length == 2 then 0x80 else if length == 3 then 0x800 else 0x1_0000
  }

  /** The character at pos: its length and code point, or Invalid. */
  function Decode(s: seq<Byte>, pos: nat): (d: Decoded)
    requires pos < |s|
    ensures d.Valid? ==> 1 <= d.length <= 4 && pos + d.length <= |s|
  {
    var length := Announced(s[pos]);
    if length == 0 then Invalid
    else if length == 1 then Valid(1, s[pos] as nat)
    else if |s| - pos < length then Invalid
    else
      var (ok, value) := Accumulated(s, pos, length, length);
      if !ok || value < MinCodePoint(length) || value > 0x10FFFF || 0xD800 <= value <= 0xDFFF then Invalid
      else Valid(length, value)
  }
}
