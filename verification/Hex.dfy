/** Hexadecimal text of byte strings. */
module Hex {
  import opened Options
  import opened Search
  import opened Utf8

  type Byte = b: int | 0 <= b < 256
  type Bytes = seq<Byte>

  const PREIMAGE_BYTES: nat := 32

  // ---------------------------------------------------------------------------------------------
  // Printing and parsing

  function LowercaseDigit(d: nat): char
    requires d < 16
  {
    if d < 10 then '0' + d as char else 'a' + (d - 10) as char
  }

  function LowercaseHex(bytes: Bytes): (s: Text)
    ensures |s| == 2 * |bytes|
  {
    if bytes == [] then []
    else [LowercaseDigit(bytes[0] / 16), LowercaseDigit(bytes[0] % 16)] + LowercaseHex(bytes[1..])
  }

  /** `hex_nibble`. */
  function HexNibble(c: char): (d: Option<nat>)
    ensures d.Some? ==> d.value < 16 && Lower(c) == LowercaseDigit(d.value)
    ensures d.None? ==> forall k: nat | k < 16 :: Lower(c) != LowercaseDigit(k)
  {
    if '0' <= c <= '9' then Some(c as int - '0' as int)
    else if 'a' <= c <= 'f' then Some(c as int - 'a' as int + 10)
    else if 'A' <= c <= 'F' then Some(c as int - 'A' as int + 10)
    else None
  }

  /** Byte `i` of hexadecimal text. */
  function HexByte(s: Text, i: nat): Option<Byte>
    requires 2 * i + 1 < |s|
  {
    var high, low := HexNibble(s[2 * i]), HexNibble(s[2 * i + 1]);
    if high.Some? && low.Some? then Some(16 * high.value + low.value) else None
  }

  /** The bytes whose printed form a text is, letters of either case. */
  predicate Spells(s: Text, bytes: Bytes) {
    LowerText(s) == LowercaseHex(bytes)
  }

  lemma {:induction false} LowercaseHexAt(bytes: Bytes, i: nat)
    requires i < |bytes|
    ensures LowercaseHex(bytes)[2 * i] == LowercaseDigit(bytes[i] / 16)
    ensures LowercaseHex(bytes)[2 * i + 1] == LowercaseDigit(bytes[i] % 16)
  {
    if i > 0 {
      LowercaseHexAt(bytes[1..], i - 1);
    }
  }

  lemma DigitInjective(a: nat, b: nat)
    requires a < 16 && b < 16 && LowercaseDigit(a) == LowercaseDigit(b)
    ensures a == b
  {
  }

  lemma HexByteIff(s: Text, i: nat, b: Byte)
    requires 2 * i + 1 < |s|
    ensures HexByte(s, i) == Some(b) <==>
      Lower(s[2 * i]) == LowercaseDigit(b / 16) && Lower(s[2 * i + 1]) == LowercaseDigit(b % 16)
  {
    var high, low := HexNibble(s[2 * i]), HexNibble(s[2 * i + 1]);
    if high.Some? && low.Some? && Lower(s[2 * i]) == LowercaseDigit(b / 16)
       && Lower(s[2 * i + 1]) == LowercaseDigit(b % 16)
    {
      DigitInjective(high.value, b / 16);
      DigitInjective(low.value, b % 16);
    }
  }

  /** Spelling is decided byte by byte. */
  lemma SpellsIff(s: Text, bytes: Bytes)
    requires |s| == 2 * |bytes|
    ensures Spells(s, bytes) <==> forall i | 0 <= i < |bytes| :: HexByte(s, i) == Some(bytes[i])
  {
    var low, hex := LowerText(s), LowercaseHex(bytes);
    forall i | 0 <= i < |bytes|
      ensures HexByte(s, i) == Some(bytes[i]) <==> low[2 * i] == hex[2 * i] && low[2 * i + 1] == hex[2 * i + 1]
    {
      LowercaseHexAt(bytes, i);
      HexByteIff(s, i, bytes[i]);
    }
    if forall i | 0 <= i < |bytes| :: HexByte(s, i) == Some(bytes[i]) {
      forall k | 0 <= k < |s| ensures low[k] == hex[k] {
        assert HexByte(s, k / 2) == Some(bytes[k / 2]);
      }
    }
  }

  predicate Spelled(s: Text) {
    |s| % 2 == 0 && forall i | 0 <= i < |s| / 2 :: HexByte(s, i).Some?
  }

  /** Parsing any number of bytes. */
  function FromHex(s: Text): (r: Option<Bytes>)
    ensures r.Some? ==> 2 * |r.value| == |s|
  {
    if Spelled(s) then Some(seq(|s| / 2, i requires 0 <= i < |s| / 2 => HexByte(s, i).value)) else None
  }

  /** Parsing 32 bytes, as `parse_preimage` and the SHA-256 hash type do. */
  function ParseHex(s: Text): (r: Option<Bytes>)
    ensures r.Some? ==> |r.value| == PREIMAGE_BYTES
  {
    if |s| == 64 then FromHex(s) else None
  }

  /** A text is accepted exactly when it spells some bytes, and then the result is those. */
  lemma FromHexIff(s: Text, bytes: Bytes)
    ensures FromHex(s) == Some(bytes) <==> Spells(s, bytes)
  {
    if Spelled(s) {
      ParsedIsSpelled(s, FromHex(s).value);
    } else {
      NotSpelled(s);
    }
  }

  lemma ParseHexIff(s: Text, bytes: Bytes)
    ensures ParseHex(s) == Some(bytes) <==> Spells(s, bytes) && |bytes| == PREIMAGE_BYTES
  {
    FromHexIff(s, bytes);
    if Spells(s, bytes) {
      assert |s| == |LowerText(s)| == |LowercaseHex(bytes)| == 2 * |bytes|;
    }
  }

  lemma ParsedIsSpelled(s: Text, parsed: Bytes)
    requires |s| == 2 * |parsed|
    requires forall i | 0 <= i < |parsed| :: HexByte(s, i) == Some(parsed[i])
    ensures forall bytes: Bytes :: bytes == parsed <==> Spells(s, bytes)
  {
    forall bytes: Bytes ensures bytes == parsed <==> Spells(s, bytes) {
      if |bytes| == |parsed| {
        SpellsIff(s, bytes);
        if Spells(s, bytes) {
          forall i | 0 <= i < |parsed| ensures bytes[i] == parsed[i] {
            assert HexByte(s, i) == Some(bytes[i]);
          }
        }
      } else {
        assert |LowerText(s)| != |LowercaseHex(bytes)|;
      }
    }
  }

  lemma NotSpelled(s: Text)
    requires !Spelled(s)
    ensures forall bytes: Bytes :: !Spells(s, bytes)
  {
    forall bytes: Bytes ensures !Spells(s, bytes) {
      if |s| == 2 * |bytes| {
        SpellsIff(s, bytes);
      } else {
        assert |LowerText(s)| != |LowercaseHex(bytes)|;
      }
    }
  }

  lemma LowerOfHex(bytes: Bytes)
    ensures LowerText(LowercaseHex(bytes)) == LowercaseHex(bytes)
  {
    forall k | 0 <= k < 2 * |bytes| ensures Lower(LowercaseHex(bytes)[k]) == LowercaseHex(bytes)[k] {
      LowercaseHexAt(bytes, k / 2);
    }
  }

  /** Printing bytes and parsing them gives them back, in either letter case. */
  lemma HexRoundTrip(bytes: Bytes, s: Text)
    requires LowerText(s) == LowercaseHex(bytes)
    ensures FromHex(s) == Some(bytes) && FromHex(LowercaseHex(bytes)) == Some(bytes)
    ensures |bytes| == PREIMAGE_BYTES ==> ParseHex(s) == Some(bytes) && ParseHex(LowercaseHex(bytes)) == Some(bytes)
  {
    LowerOfHex(bytes);
    FromHexIff(s, bytes);
    FromHexIff(LowercaseHex(bytes), bytes);
    ParseHexIff(s, bytes);
    ParseHexIff(LowercaseHex(bytes), bytes);
  }

  /** Different bytes print differently. */
  lemma HexInjective(a: Bytes, b: Bytes)
    requires LowercaseHex(a) == LowercaseHex(b)
    ensures a == b
  {
    assert |a| == |b|;
    forall i | 0 <= i < |a| ensures a[i] == b[i] {
      LowercaseHexAt(a, i);
      LowercaseHexAt(b, i);
      DigitInjective(a[i] / 16, b[i] / 16);
      DigitInjective(a[i] % 16, b[i] % 16);
    }
  }

  // ---------------------------------------------------------------------------------------------
  // The loops

  /** `lowercase_hex`. */
  method EncodeLowercaseHex(bytes: Bytes) returns (output: Text)
    ensures output == LowercaseHex(bytes)
  {
    hide LowercaseDigit;
    output := [];
    for i := 0 to |bytes|
      invariant output + LowercaseHex(bytes[i..]) == LowercaseHex(bytes)
    {
      var head := [LowercaseDigit(bytes[i] / 16), LowercaseDigit(bytes[i] % 16)];
      assert bytes[i..][1..] == bytes[i + 1..];
      Join(output, head, LowercaseHex(bytes[i + 1..]), LowercaseHex(bytes[i..]), LowercaseHex(bytes));
      output := output + [head[0]];
      output := output + [head[1]];
    }
  }

  /** `parse_preimage`: fills 32 bytes in place, stopping at the first character that is no digit. */
  method ParsePreimage(value: Text) returns (r: Option<Bytes>)
    ensures r == ParseHex(value)
  {
    if |value| != 64 || exists c | c in value :: !IsAscii(c) {
      NotAsciiNotSpelled(value);
      return None;
    }
    var bytes := new Byte[PREIMAGE_BYTES](_ => 0);
    for index := 0 to PREIMAGE_BYTES
      invariant forall k | 0 <= k < index :: HexByte(value, k) == Some(bytes[k])
    {
      var offset := index * 2;
      var high := HexNibble(value[offset]);
      if high.None? {
        assert HexByte(value, index).None?;
        return None;
      }
      var low := HexNibble(value[offset + 1]);
      if low.None? {
        assert HexByte(value, index).None?;
        return None;
      }
      bytes[index] := 16 * high.value + low.value;
    }
    assert FromHex(value).value == bytes[..];
    return Some(bytes[..]);
  }

  lemma NotAsciiNotSpelled(s: Text)
    requires |s| != 64 || exists c | c in s :: !IsAscii(c)
    ensures ParseHex(s).None?
  {
    if |s| == 64 {
      var k :| 0 <= k < |s| && !IsAscii(s[k]);
      assert HexNibble(s[k]).None?;
      assert HexByte(s, k / 2).None?;
    }
  }

  // ---------------------------------------------------------------------------------------------
  // The digits

  const HEX_DIGITS: Text := "0123456789abcdef"

  /** Two digits a byte, the high one first. */
  lemma PrintedDigits(bytes: Bytes, i: nat)
    requires i < |bytes|
    ensures LowercaseHex(bytes)[2 * i] == HEX_DIGITS[bytes[i] / 16]
    ensures LowercaseHex(bytes)[2 * i + 1] == HEX_DIGITS[bytes[i] % 16]
  {
    LowercaseHexAt(bytes, i);
    DigitIs(bytes[i] / 16);
    DigitIs(bytes[i] % 16);
    hide *;
  }

  lemma DigitIs(d: nat)
    requires d < 16
    ensures |HEX_DIGITS| == 16 && LowercaseDigit(d) == HEX_DIGITS[d]
  {
  }

  predicate IsHexDigit(c: char) { Lower(c) in HEX_DIGITS }

  lemma NibbleIff(c: char)
    ensures HexNibble(c).Some? <==> IsHexDigit(c)
  {
    var d := HexNibble(c);
    if d.Some? {
      DigitIs(d.value);
    } else {
      assert forall k: nat | k < 16 :: HEX_DIGITS[k] == LowercaseDigit(k);
    }
  }

  /** A text is accepted as 32 bytes exactly when it has 64 hexadecimal digits, of either case. */
  lemma ParsedIff(s: Text)
    ensures ParseHex(s).Some? <==> |s| == 64 && forall c | c in s :: IsHexDigit(c)
  {
    hide HexNibble, IsHexDigit;
    forall k | 0 <= k < |s| ensures HexNibble(s[k]).Some? <==> IsHexDigit(s[k]) {
      NibbleIff(s[k]);
    }
    if |s| == 64 && Spelled(s) {
      forall k | 0 <= k < |s| ensures IsHexDigit(s[k]) {
        assert HexByte(s, k / 2).Some?;
      }
    }
  }
}
