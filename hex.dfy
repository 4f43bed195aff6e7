/**
 * Identifier encoder: `uidToHexString` (src/main.cpp:72-82) turns the tag
 * buffer into upper-case base-16 text, two characters per byte, as in the
 * Base 16 alphabet of section 8 of RFC 4648.
 */
module Hex {
  import opened Wrappers

  /** An unsigned 8-bit value (`uint8_t`). */
  newtype byte = x: int | 0 <= x < 256

  predicate IsUpperHex(c: char) {
    '0' <= c <= '9' || 'A' <= c <= 'F'
  }

  /** Digit `d` of the Base 16 alphabet `0123456789ABCDEF`. */
  function UpperDigit(d: int): char
    requires 0 <= d < 16
  {
    if d < 10 then ('0' as int + d) as char else ('A' as int + d - 10) as char
  }

  /** The value of an upper-case hex digit; anything else is rejected. */
  function DigitValue(c: char): (r: Option<int>)
    ensures r.Some? <==> IsUpperHex(c)
    ensures r.Some? ==> 0 <= r.value < 16 && UpperDigit(r.value) == c
  {
    if '0' <= c <= '9' then Some(c as int - '0' as int)
    else if 'A' <= c <= 'F' then Some(c as int - 'A' as int + 10)
    else None
  }

  // ---------------------------------------------------------------------
  // The specification: canonical upper-case encoding and its inverse.
  // ---------------------------------------------------------------------

  /** The two characters that byte `b` occupies in the encoding. */
  function HexPair(b: byte): string {
    [UpperDigit(b as int / 16), UpperDigit(b as int % 16)]
  }

  /** Canonical encoding of a byte sequence: byte `i` at positions `2i` and `2i+1`. */
  function Encode(bytes: seq<byte>): (r: string)
    ensures |r| == 2 * |bytes|
    ensures forall i :: 0 <= i < |r| ==> IsUpperHex(r[i])
  {
    if bytes == [] then ""
    else Encode(bytes[..|bytes| - 1]) + HexPair(bytes[|bytes| - 1])
  }

  /** Parses one pair of upper-case hex digits, high digit first. */
  function ParsePair(hi: char, lo: char): Option<byte> {
    var h, l := DigitValue(hi), DigitValue(lo);
    if h.Some? && l.Some? then Some((h.value * 16 + l.value) as byte) else None
  }

  /** Groups the text into consecutive pairs and parses each; `None` on odd length or a non-digit. */
  function Decode(text: string): Option<seq<byte>> {
    if |text| % 2 == 1 then None
    else if text == [] then Some([])
    else
      var prefix := Decode(text[..|text| - 2]);
      var last := ParsePair(text[|text| - 2], text[|text| - 1]);
      if prefix.Some? && last.Some? then Some(prefix.value + [last.value]) else None
  }

  /** Decoding text extended by one pair extends the decoded bytes by that pair's byte. */
  lemma DecodeSnoc(front: string, hi: char, lo: char)
    requires |front| % 2 == 0
    ensures Decode(front + [hi, lo])
      == if Decode(front).Some? && ParsePair(hi, lo).Some?
         then Some(Decode(front).value + [ParsePair(hi, lo).value]) else None
  {
    var text := front + [hi, lo];
    assert |text| % 2 == 0 && text != [];
    assert text[..|text| - 2] == front;
    assert text[|text| - 2] == hi && text[|text| - 1] == lo;
  }

  lemma ParseHexPair(b: byte)
    ensures ParsePair(HexPair(b)[0], HexPair(b)[1]) == Some(b)
  {
    var h, l := b as int / 16, b as int % 16;
    assert DigitValue(UpperDigit(h)) == Some(h);
    assert DigitValue(UpperDigit(l)) == Some(l);
  }

  lemma PairOfParse(hi: char, lo: char, b: byte)
    requires ParsePair(hi, lo) == Some(b)
    ensures HexPair(b) == [hi, lo]
  {
    var h, l := DigitValue(hi).value, DigitValue(lo).value;
    assert b as int == h * 16 + l;
    assert b as int / 16 == h && b as int % 16 == l;
  }

  /** Byte `i` of the input occupies characters `2i` and `2i+1`, and parses back to itself. */
  lemma {:induction false} EncodeAt(bytes: seq<byte>, i: nat)
    requires i < |bytes|
    ensures Encode(bytes)[2 * i .. 2 * i + 2] == HexPair(bytes[i])
    ensures ParsePair(Encode(bytes)[2 * i], Encode(bytes)[2 * i + 1]) == Some(bytes[i])
  {
    var n := |bytes| - 1;
    var front := bytes[..n];
    assert Encode(bytes) == Encode(front) + HexPair(bytes[n]);
    if i < n {
      EncodeAt(front, i);
      assert Encode(bytes)[2 * i .. 2 * i + 2] == Encode(front)[2 * i .. 2 * i + 2];
    }
    ParseHexPair(bytes[i]);
  }

  /** Round trip: decoding the encoding gives back the bytes exactly. */
  lemma {:induction false} DecodeEncode(bytes: seq<byte>)
    ensures Decode(Encode(bytes)) == Some(bytes)
  {
    if bytes != [] {
      var n := |bytes| - 1;
      var front, pair := Encode(bytes[..n]), HexPair(bytes[n]);
      assert Encode(bytes) == front + [pair[0], pair[1]];
      DecodeEncode(bytes[..n]);
      ParseHexPair(bytes[n]);
      DecodeSnoc(front, pair[0], pair[1]);
      assert bytes[..n] + [bytes[n]] == bytes;
    }
  }

  /** The encoding is canonical: any text that decodes is the encoding of what it decodes to. */
  lemma {:induction false} EncodeDecode(text: string, bytes: seq<byte>)
    requires Decode(text) == Some(bytes)
    ensures Encode(bytes) == text
  {
    if text != [] {
      var front, hi, lo := text[..|text| - 2], text[|text| - 2], text[|text| - 1];
      assert text == front + [hi, lo];
      DecodeSnoc(front, hi, lo);
      var prefix, b := Decode(front).value, ParsePair(hi, lo).value;
      EncodeDecode(front, prefix);
      PairOfParse(hi, lo, b);
      assert bytes[..|bytes| - 1] == prefix && bytes[|bytes| - 1] == b;
    }
  }

  /** Every even-length text of upper-case hex digits decodes: the encoding is onto such texts. */
  lemma {:induction false} DecodeTotal(text: string)
    requires |text| % 2 == 0
    requires forall i :: 0 <= i < |text| ==> IsUpperHex(text[i])
    ensures Decode(text).Some?
  {
    if text != [] {
      var front, hi, lo := text[..|text| - 2], text[|text| - 2], text[|text| - 1];
      assert text == front + [hi, lo];
      DecodeTotal(front);
      DecodeSnoc(front, hi, lo);
    }
  }

  // ---------------------------------------------------------------------
  // The implementation, as the firmware builds the string.
  // ---------------------------------------------------------------------

  /** A lower-case digit, as Arduino's `String(value, HEX)` writes it. */
  function LowerDigit(d: int): char
    requires 0 <= d < 16
  {
    if d < 10 then ('0' as int + d) as char else ('a' as int + d - 10) as char
  }

  /** `String(b, HEX)`: the base-16 digits of `b`, lower case, without padding. */
  function ArduinoHex(b: byte): string {
    if b < 16 then [LowerDigit(b as int)]
    else [LowerDigit(b as int / 16), LowerDigit(b as int % 16)]
  }

  /** `toupper` on one character of the C locale. */
  function UpperChar(c: char): char {
    if 'a' <= c <= 'z' then (c as int - 32) as char else c
  }

  /** `String::toUpperCase`, applied character by character. */
  function UpperCase(s: string): string {
    seq(|s|, i requires 0 <= i < |s| => UpperChar(s[i]))
  }

  lemma UpperCaseAppend(a: string, b: string)
    ensures UpperCase(a + b) == UpperCase(a) + UpperCase(b)
  {
  }

  /** One loop step: the zero pad plus `String(b, HEX)`, upper-cased, is the byte's pair. */
  lemma UpperCasePadded(b: byte)
    ensures UpperCase((if b < 0x10 then "0" else "") + ArduinoHex(b)) == HexPair(b)
  {
  }

  /** One loop step keeps the upper-cased text equal to the encoding of the bytes consumed. */
  lemma AppendStep(before: string, after: string, consumed: seq<byte>)
    requires consumed != []
    requires UpperCase(before) == Encode(consumed[..|consumed| - 1])
    requires var b := consumed[|consumed| - 1];
      after == before + ((if b < 0x10 then "0" else "") + ArduinoHex(b))
    ensures UpperCase(after) == Encode(consumed)
  {
    var b := consumed[|consumed| - 1];
    UpperCaseAppend(before, (if b < 0x10 then "0" else "") + ArduinoHex(b));
    UpperCasePadded(b);
  }

  /**
   * `uidToHexString(uid, length)`: appends each byte's digits (a "0" first
   * when the byte is below 0x10), then upper-cases the whole string. A
   * non-positive length gives the empty string; the caller must not ask for
   * more bytes than the buffer holds.
   */
  method UidToHexString(uid: seq<byte>, length: int) returns (hexString: string)
    requires length <= |uid|
    ensures length <= 0 ==> hexString == ""
    ensures 0 <= length ==> hexString == Encode(uid[..length])
  {
    hexString := "";
    var i := 0;
    while i < length
      invariant 0 <= i && (i <= length || i == 0)
      invariant UpperCase(hexString) == Encode(uid[..i])
    {
      ghost var before := hexString;
      if uid[i] < 0x10 {
        hexString := hexString + "0";
      }
      hexString := hexString + ArduinoHex(uid[i]);
      assert hexString == before + ((if uid[i] < 0x10 then "0" else "") + ArduinoHex(uid[i]));
      assert uid[..i + 1][..i] == uid[..i] && uid[..i + 1][i] == uid[i];
      AppendStep(before, hexString, uid[..i + 1]);
      i := i + 1;
    }
    hexString := UpperCase(hexString);
  }

  /** Encoding distributes over concatenation. */
  lemma {:induction false} EncodeAppend(a: seq<byte>, b: seq<byte>)
    ensures Encode(a + b) == Encode(a) + Encode(b)
  {
    if b != [] {
      var n := |b| - 1;
      assert (a + b)[..|a + b| - 1] == a + b[..n];
      assert (a + b)[|a + b| - 1] == b[n];
      EncodeAppend(a, b[..n]);
      assert Encode(b) == Encode(b[..n]) + HexPair(b[n]);
    } else {
      assert a + b == a;
    }
  }

  /** Zero bytes encode as zero digits, two per byte. */
  lemma {:induction false} EncodeZeros(k: nat)
    ensures Encode(seq(k, _ => 0 as byte)) == seq(2 * k, _ => '0')
  {
    if k > 0 {
      var zeros := seq(k, _ => 0 as byte);
      assert zeros[..k - 1] == seq(k - 1, _ => 0 as byte);
      EncodeZeros(k - 1);
      assert HexPair(0) == "00";
    }
  }

  /** A tag whose buffer reads 04 12 A3 followed by nine zero bytes. */
  lemma ExampleTagEncoding()
    ensures Encode([0x04, 0x12, 0xA3, 0, 0, 0, 0, 0, 0, 0, 0, 0]) == "0412A3000000000000000000"
  {
    var head: seq<byte> := [0x04, 0x12, 0xA3];
    var zeros := seq(9, _ => 0 as byte);
    assert head + zeros == [0x04, 0x12, 0xA3, 0, 0, 0, 0, 0, 0, 0, 0, 0];
    EncodeAppend(head, zeros);
    EncodeZeros(9);
    assert head[..2] == [0x04, 0x12] && head[..2][..1] == [0x04] && head[..2][..1][..0] == [];
    assert HexPair(0x04) == "04" && HexPair(0x12) == "12" && HexPair(0xA3) == "A3";
    assert Encode([0x04]) == "04";
    assert Encode([0x04, 0x12]) == "0412";
    assert Encode(head) == "0412A3";
  }
}
