// UTF-8 (RFC 3629): the encoder of the standard, and a lead byte and a
// character as fstring.hpp reads them.
module Utf8 {
  type Byte = bv8
  type CodePoint = bv32

  /** A Unicode scalar value (RFC 3629, section 3). */
  predicate IsScalar(c: CodePoint) { c < 0xD800 || 0xE000 <= c <= 0x10FFFF }

  predicate Scalars(cs: seq<CodePoint>) { forall i :: 0 <= i < |cs| ==> IsScalar(cs[i]) }

  /** The encoder of RFC 3629, section 3. */
  function Encode(c: CodePoint): seq<Byte>
    requires IsScalar(c)
  {
    if c < 0x80 then [c as Byte]
    else if c < 0x800 then
      [(0xC0 | (c >> 6)) as Byte, (0x80 | (c & 0x3F)) as Byte]
    else if c < 0x10000 then
      [(0xE0 | (c >> 12)) as Byte, (0x80 | ((c >> 6) & 0x3F)) as Byte, (0x80 | (c & 0x3F)) as Byte]
    else
      [(0xF0 | (c >> 18)) as Byte, (0x80 | ((c >> 12) & 0x3F)) as Byte,
       (0x80 | ((c >> 6) & 0x3F)) as Byte, (0x80 | (c & 0x3F)) as Byte]
  }

  // ---------------------------------------------------------------------
  // The code's view of a lead byte.

  /** utf8_advance_bytes: length announced by a lead byte, 0 for a stray byte. */
  function Advance(lead: Byte): nat {
    if lead & 0x80 == 0 then 1
    else if lead & 0xE0 == 0xC0 then 2
    else if lead & 0xF0 == 0xE0 then 3
    else if lead & 0xF8 == 0xF0 then 4
    else 0
  }

  function Join2(b0: Byte, b1: Byte): CodePoint {
    ((b0 as CodePoint & 0x1F) << 6) | (b1 as CodePoint & 0x3F)
  }

  function Join3(b0: Byte, b1: Byte, b2: Byte): CodePoint {
    ((b0 as CodePoint & 0x0F) << 12) | ((b1 as CodePoint & 0x3F) << 6) | (b2 as CodePoint & 0x3F)
  }

  function Join4(b0: Byte, b1: Byte, b2: Byte, b3: Byte): CodePoint {
    ((b0 as CodePoint & 0x07) << 18) | ((b1 as CodePoint & 0x3F) << 12)
      | ((b2 as CodePoint & 0x3F) << 6) | (b3 as CodePoint & 0x3F)
  }

  /** decode_codepoint. */
  function Decode(s: seq<Byte>): CodePoint
    requires s != [] && Advance(s[0]) <= |s|
  {
    match Advance(s[0])
    case 1 => s[0] as CodePoint
    case 2 => Join2(s[0], s[1])
    case 3 => Join3(s[0], s[1], s[2])
    case 4 => Join4(s[0], s[1], s[2], s[3])
    case _ => 0xFFFD
  }

  predicate Continuation(b: Byte) { b & 0xC0 == 0x80 }

  /** Exactly the continuation bytes and the bytes from 0xF8 on lead nothing. */
  lemma AdvanceIs(b: Byte)
    ensures Advance(b) == 0 <==> Continuation(b) || 0xF8 <= b
    ensures Advance(b) == 1 <==> b < 0x80
    ensures Advance(b) == 2 <==> 0xC0 <= b < 0xE0
    ensures Advance(b) == 3 <==> 0xE0 <= b < 0xF0
    ensures Advance(b) == 4 <==> 0xF0 <= b < 0xF8
  {
  }

  /** The examples of RFC 3629, section 7, and one character of each length. */
  lemma EncodedExamples()
    ensures Encode(0x41) == [0x41] && Encode(0x391) == [0xCE, 0x91]
    ensures Encode(0x2262) == [0xE2, 0x89, 0xA2] && Encode(0xD55C) == [0xED, 0x95, 0x9C]
    ensures Encode(0x233B4) == [0xF0, 0xA3, 0x8E, 0xB4]
  {
  }

  /** A byte that leads nothing decodes to the replacement character. */
  lemma DecodeStray(s: seq<Byte>)
    requires s != [] && (Continuation(s[0]) || 0xF8 <= s[0])
    ensures Advance(s[0]) <= |s| && Decode(s) == 0xFFFD
  {
    AdvanceIs(s[0]);
  }

  lemma EncodedLead(c: CodePoint)
    requires IsScalar(c)
    ensures var e := Encode(c);
      1 <= |e| <= 4 && Advance(e[0]) == |e| && !Continuation(e[0]) && (e[0] == 0 <==> c == 0)
  {
  }

  lemma EncodedTail(c: CodePoint, i: nat)
    requires IsScalar(c) && 0 < i < |Encode(c)|
    ensures Continuation(Encode(c)[i]) && Encode(c)[i] != 0
  {
  }

  lemma TwoBytes(c: CodePoint)
    requires 0x80 <= c < 0x800
    ensures Join2((0xC0 | (c >> 6)) as Byte, (0x80 | (c & 0x3F)) as Byte) == c
  {
  }

  lemma ThreeBytes(c: CodePoint)
    requires 0x800 <= c < 0x10000
    ensures Join3((0xE0 | (c >> 12)) as Byte, (0x80 | ((c >> 6) & 0x3F)) as Byte, (0x80 | (c & 0x3F)) as Byte) == c
  {
  }

  lemma FourBytes(c: CodePoint)
    requires 0x10000 <= c <= 0x10FFFF
    ensures Join4((0xF0 | (c >> 18)) as Byte, (0x80 | ((c >> 12) & 0x3F)) as Byte,
                  (0x80 | ((c >> 6) & 0x3F)) as Byte, (0x80 | (c & 0x3F)) as Byte) == c
  {
  }

  lemma DecodeAlone(c: CodePoint)
    requires IsScalar(c)
    ensures Advance(Encode(c)[0]) == |Encode(c)| && Decode(Encode(c)) == c
  {
    EncodedLead(c);
    if c < 0x80 {
    } else if c < 0x800 {
      TwoBytes(c);
    } else if c < 0x10000 {
      ThreeBytes(c);
    } else {
      FourBytes(c);
    }
  }

  /** decode_codepoint inverts the encoder, whatever follows in the buffer. */
  lemma DecodeEncode(c: CodePoint, rest: seq<Byte>)
    requires IsScalar(c)
    ensures var s := Encode(c) + rest; s != [] && Advance(s[0]) == |Encode(c)| <= |s| && Decode(s) == c
  {
    EncodedLead(c);
    DecodeAlone(c);
    var e, s := Encode(c), Encode(c) + rest;
    assert forall i :: 0 <= i < |e| ==> s[i] == e[i];
  }
}
