/** Well-formed UTF-8 (section 4 of RFC 3629), as Rust's `str` requires of its bytes. */
module Utf8 {
  import opened Words

  predicate Continuation(b: byte) {
    0x80 <= b < 0xC0
  }

  /** Length of the well-formed sequence at the start of `b`, or 0 if there is none. */
  function FirstScalar(b: seq<byte>): (n: nat)
    ensures n <= |b|
  {
    if b == [] then 0
    else if b[0] < 0x80 then 1
    else if |b| < 2 || !Continuation(b[1]) then 0
    else if 0xC2 <= b[0] < 0xE0 then 2
    else if |b| < 3 || !Continuation(b[2]) then 0
    else if 0xE0 <= b[0] < 0xF0 then
      if (b[0] == 0xE0 && b[1] < 0xA0) || (b[0] == 0xED && b[1] >= 0xA0) then 0 else 3
    else if |b| < 4 || !Continuation(b[3]) then 0
    else if 0xF0 <= b[0] <= 0xF4 then
      if (b[0] == 0xF0 && b[1] < 0x90) || (b[0] == 0xF4 && b[1] >= 0x90) then 0 else 4
    else 0
  }

  predicate IsUtf8(b: seq<byte>) {
    b == [] || (FirstScalar(b) > 0 && IsUtf8(b[FirstScalar(b)..]))
  }

  lemma {:induction false} AsciiIsUtf8(b: seq<byte>)
    requires forall i | 0 <= i < |b| :: b[i] < 0x80
    ensures IsUtf8(b)
  {
    if b == [] {
    } else {
      AsciiIsUtf8(b[1..]);
    }
  }

  // ----- the encoding it accepts -----

  /** A Unicode scalar value: a code point that is no surrogate. */
  predicate Scalar(c: int) {
    0 <= c < 0xD800 || 0xE000 <= c < 0x11_0000
  }

  /** The table of section 3 of RFC 3629. */
  function EncodeScalar(c: int): (b: seq<byte>)
    requires Scalar(c)
    ensures 1 <= |b| <= 4
  {
    if c < 0x80 then [c]
    else if c < 0x800 then [0xC0 + c / 64, 0x80 + c % 64]
    else if c < 0x1_0000 then [0xE0 + c / 4096, 0x80 + c / 64 % 64, 0x80 + c % 64]
    else [0xF0 + c / 0x4_0000, 0x80 + c / 4096 % 64, 0x80 + c / 64 % 64, 0x80 + c % 64]
  }

  predicate AllScalars(text: seq<int>) {
    forall i | 0 <= i < |text| :: Scalar(text[i])
  }

  function EncodeText(text: seq<int>): seq<byte>
    requires AllScalars(text)
  {
    if text == [] then [] else EncodeScalar(text[0]) + EncodeText(text[1..])
  }

  lemma FirstOfEncoded(c: int, rest: seq<byte>)
    requires Scalar(c)
    ensures FirstScalar(EncodeScalar(c) + rest) == |EncodeScalar(c)|
  {
    var b := EncodeScalar(c) + rest;
    assert c / 64 / 64 == c / 4096 && c / 4096 / 64 == c / 0x4_0000;
  }

  lemma FirstDecodes(b: seq<byte>) returns (c: int)
    requires FirstScalar(b) > 0
    ensures Scalar(c) && EncodeScalar(c) == b[..FirstScalar(b)]
  {
    var n := FirstScalar(b);
    var b0: int := b[0];
    if n == 1 {
      c := b0;
    } else if n == 2 {
      var b1: int := b[1];
      c := (b0 - 0xC0) * 64 + (b1 - 0x80);
    } else if n == 3 {
      c := ThreeDecode(b);
    } else {
      c := FourDecode(b);
    }
  }

  lemma ThreeDecode(b: seq<byte>) returns (c: int)
    requires FirstScalar(b) == 3
    ensures Scalar(c) && EncodeScalar(c) == b[..3]
  {
    var b0: int, b1: int, b2: int := b[0], b[1], b[2];
    c := ((b0 - 0xE0) * 64 + (b1 - 0x80)) * 64 + (b2 - 0x80);
    assert c / 64 == (b0 - 0xE0) * 64 + (b1 - 0x80) && c / 4096 == b0 - 0xE0;
  }

  lemma FourDecode(b: seq<byte>) returns (c: int)
    requires FirstScalar(b) == 4
    ensures Scalar(c) && EncodeScalar(c) == b[..4]
  {
    var b0: int, b1: int, b2: int, b3: int := b[0], b[1], b[2], b[3];
    c := (((b0 - 0xF0) * 64 + (b1 - 0x80)) * 64 + (b2 - 0x80)) * 64 + (b3 - 0x80);
    assert c / 64 == ((b0 - 0xF0) * 64 + (b1 - 0x80)) * 64 + (b2 - 0x80);
    assert c / 4096 == (b0 - 0xF0) * 64 + (b1 - 0x80) && c / 0x4_0000 == b0 - 0xF0;
  }

  lemma {:induction false} EncodedIsUtf8(text: seq<int>)
    requires AllScalars(text)
    ensures IsUtf8(EncodeText(text))
  {
    hide EncodeScalar, FirstScalar;
    if text == [] {
    } else {
      var rest := EncodeText(text[1..]);
      FirstOfEncoded(text[0], rest);
      EncodedIsUtf8(text[1..]);
      assert (EncodeScalar(text[0]) + rest)[|EncodeScalar(text[0])|..] == rest;
    }
  }

  lemma {:induction false} Utf8Decodes(b: seq<byte>) returns (text: seq<int>)
    requires IsUtf8(b)
    ensures AllScalars(text) && EncodeText(text) == b
    decreases |b|
  {
    hide EncodeScalar, FirstScalar;
    if b == [] {
      text := [];
    } else {
      var c := FirstDecodes(b);
      var rest := Utf8Decodes(b[FirstScalar(b)..]);
      text := [c] + rest;
      assert text[1..] == rest;
    }
  }

  /** The examples of section 7 of RFC 3629: "A", NOT IDENTICAL TO, ALPHA and "." encode as 41 E2 89 A2 CE 91 2E,
      and the code point U+233B4 as F0 A3 8E B4. */
  lemma Rfc3629Examples()
    ensures EncodeText([0x41, 0x2262, 0x391, 0x2E]) == [0x41, 0xE2, 0x89, 0xA2, 0xCE, 0x91, 0x2E]
    ensures EncodeText([0x2_33B4]) == [0xF0, 0xA3, 0x8E, 0xB4]
  {
    hide EncodeText;
    var t3: seq<int>, t2: seq<int>, t1: seq<int> := [0x2E], [0x391, 0x2E], [0x2262, 0x391, 0x2E];
    OneScalar(0x2E);
    OneScalar(0x2_33B4);
    assert [0x391] + t3 == t2 && [0x2262] + t2 == t1 && [0x41] + t1 == [0x41, 0x2262, 0x391, 0x2E];
    TextSplits(0x391, t3);
    TextSplits(0x2262, t2);
    TextSplits(0x41, t1);
  }

  lemma TextSplits(c: int, rest: seq<int>)
    requires Scalar(c) && AllScalars(rest)
    ensures AllScalars([c] + rest) && EncodeText([c] + rest) == EncodeScalar(c) + EncodeText(rest)
  {
    assert ([c] + rest)[1..] == rest;
  }

  lemma OneScalar(c: int)
    requires Scalar(c)
    ensures AllScalars([c]) && EncodeText([c]) == EncodeScalar(c)
  {
    assert [c][1..] == [];
  }

  /** Valid UTF-8 is exactly what encoding some sequence of scalar values gives. */
  lemma Utf8Iff(b: seq<byte>)
    ensures IsUtf8(b) <==> exists text :: AllScalars(text) && EncodeText(text) == b
  {
    if IsUtf8(b) {
      var text := Utf8Decodes(b);
    }
    if text :| AllScalars(text) && EncodeText(text) == b {
      EncodedIsUtf8(text);
    }
  }
}
