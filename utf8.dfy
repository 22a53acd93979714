/**
 * `bytes.decode('utf-8')` as Python performs it in strict mode: a byte
 * string decodes only when it is a concatenation of well-formed UTF-8
 * sequences (Table 3-7 of the Unicode Standard: no overlong forms, no
 * surrogates, nothing above U+10FFFF); otherwise UnicodeDecodeError.
 */
module Utf8 {
  import opened Shared

  predicate IsCont(b: byte) {
    0x80 <= b <= 0xBF
  }

  /** The length of the well-formed sequence at the head of `bs`, or 0 when there is none. */
  function HeadLength(bs: seq<byte>): (n: nat)
    ensures n <= 4 && n <= |bs|
    ensures bs != [] && bs[0] <= 0x7F ==> n == 1
  {
    if bs == [] then 0
    else
      var b0 := bs[0];
      if b0 <= 0x7F then 1
      else if 0xC2 <= b0 <= 0xDF then
        if |bs| >= 2 && IsCont(bs[1]) then 2 else 0
      else if 0xE0 <= b0 <= 0xEF then
        if |bs| >= 3 && IsCont(bs[2])
           && (if b0 == 0xE0 then 0xA0 <= bs[1] <= 0xBF
               else if b0 == 0xED then 0x80 <= bs[1] <= 0x9F
               else IsCont(bs[1]))
        then 3 else 0
      else if 0xF0 <= b0 <= 0xF4 then
        if |bs| >= 4 && IsCont(bs[2]) && IsCont(bs[3])
           && (if b0 == 0xF0 then 0x90 <= bs[1] <= 0xBF
               else if b0 == 0xF4 then 0x80 <= bs[1] <= 0x8F
               else IsCont(bs[1]))
        then 4 else 0
      else 0
  }

  predicate IsScalar(cp: int) {
    0 <= cp < 0xD800 || 0xE000 <= cp < 0x11_0000
  }

  /** The code point a well-formed head sequence stands for. */
  function HeadScalar(bs: seq<byte>): (cp: int)
    requires HeadLength(bs) > 0
    ensures IsScalar(cp)
  {
    var n := HeadLength(bs);
    var b0 := bs[0] as int;
    if n == 1 then b0
    else if n == 2 then (b0 - 0xC0) * 0x40 + (bs[1] as int - 0x80)
    else if n == 3 then (b0 - 0xE0) * 0x1000 + (bs[1] as int - 0x80) * 0x40 + (bs[2] as int - 0x80)
    else (b0 - 0xF0) * 0x4_0000 + (bs[1] as int - 0x80) * 0x1000 + (bs[2] as int - 0x80) * 0x40 + (bs[3] as int - 0x80)
  }

  /** `bytes.decode('utf-8')`; `None` stands for UnicodeDecodeError. */
  function Decode(bs: seq<byte>): (r: Option<string>)
    ensures r.Some? ==> |r.value| <= |bs|
    ensures r.Some? ==> (r.value == [] <==> bs == [])
    decreases |bs|
  {
    if bs == [] then Some([])
    else
      var n := HeadLength(bs);
      if n == 0 then None
      else match Decode(bs[n..])
        case None => None
        case Some(rest) => Some([HeadScalar(bs) as char] + rest)
  }

  /** The UTF-8 encoding of one character: the code point cut into six-bit groups. */
  function EncodeChar(c: char): (bs: seq<byte>)
    ensures 1 <= |bs| <= 4
  {
    var cp := c as int;
    var g0, g1, g2 := cp % 0x40, cp / 0x40 % 0x40, cp / 0x40 / 0x40 % 0x40;
    if cp < 0x80 then [cp as byte]
    else if cp < 0x800 then [(0xC0 + cp / 0x40) as byte, (0x80 + g0) as byte]
    else if cp < 0x1_0000 then [(0xE0 + cp / 0x40 / 0x40) as byte, (0x80 + g1) as byte, (0x80 + g0) as byte]
    else [(0xF0 + cp / 0x40 / 0x40 / 0x40) as byte, (0x80 + g2) as byte, (0x80 + g1) as byte, (0x80 + g0) as byte]
  }

  /** The UTF-8 encoding of a string, `s.encode('utf-8')`. */
  function Encode(s: string): seq<byte> {
    if s == [] then [] else EncodeChar(s[0]) + Encode(s[1..])
  }

  lemma HeadOfEncode2(c: char, rest: seq<byte>)
    requires 0x80 <= c as int < 0x800
    ensures HeadLength(EncodeChar(c) + rest) == 2
    ensures HeadScalar(EncodeChar(c) + rest) == c as int
  {
    var cp := c as int;
    var bs := EncodeChar(c) + rest;
    var m, d := cp / 0x40, cp % 0x40;
    assert cp == m * 0x40 + d;
    assert 2 <= m < 0x20;
    assert bs[0] as int == 0xC0 + m && bs[1] as int == 0x80 + d;
  }

  lemma HeadOfEncode3(c: char, rest: seq<byte>)
    requires 0x800 <= c as int < 0x1_0000
    ensures HeadLength(EncodeChar(c) + rest) == 3
    ensures HeadScalar(EncodeChar(c) + rest) == c as int
  {
    var cp := c as int;
    var bs := EncodeChar(c) + rest;
    var m, d := cp / 0x40, cp % 0x40;
    var a, b := m / 0x40, m % 0x40;
    assert cp == m * 0x40 + d;
    assert m == a * 0x40 + b;
    assert 0x20 <= m < 0x400;
    assert a < 0x10;
    assert a == 0 ==> b >= 0x20;
    assert a == 0xD ==> b < 0x20;
    assert bs[0] as int == 0xE0 + a && bs[1] as int == 0x80 + b && bs[2] as int == 0x80 + d;
  }

  lemma HeadOfEncode4(c: char, rest: seq<byte>)
    requires 0x1_0000 <= c as int
    ensures HeadLength(EncodeChar(c) + rest) == 4
    ensures HeadScalar(EncodeChar(c) + rest) == c as int
  {
    var cp := c as int;
    var bs := EncodeChar(c) + rest;
    var m, d := cp / 0x40, cp % 0x40;
    var n, b := m / 0x40, m % 0x40;
    var a, e := n / 0x40, n % 0x40;
    assert cp == m * 0x40 + d;
    assert m == n * 0x40 + b;
    assert n == a * 0x40 + e;
    assert 0x400 <= m < 0x4400;
    assert 0x10 <= n < 0x110;
    assert a <= 4;
    assert a == 0 ==> e >= 0x10;
    assert a == 4 ==> e < 0x10;
    assert bs[0] as int == 0xF0 + a && bs[1] as int == 0x80 + e;
    assert bs[2] as int == 0x80 + b && bs[3] as int == 0x80 + d;
  }

  /** The encoding of one character is read back as exactly that character, whatever follows. */
  lemma HeadOfEncodeChar(c: char, rest: seq<byte>)
    ensures HeadLength(EncodeChar(c) + rest) == |EncodeChar(c)|
    ensures HeadScalar(EncodeChar(c) + rest) == c as int
  {
    var cp := c as int;
    if cp < 0x80 {
    } else if cp < 0x800 {
      HeadOfEncode2(c, rest);
    } else if cp < 0x1_0000 {
      HeadOfEncode3(c, rest);
    } else {
      HeadOfEncode4(c, rest);
    }
  }

  /** Decoding undoes encoding: every string survives the trip through bytes. */
  lemma {:induction false} DecodeEncode(s: string)
    ensures Decode(Encode(s)) == Some(s)
  {
    if s != [] {
      var head := EncodeChar(s[0]);
      var tail := Encode(s[1..]);
      HeadOfEncodeChar(s[0], tail);
      assert Encode(s) == head + tail && head + tail != [];
      assert (head + tail)[|head|..] == tail;
      DecodeEncode(s[1..]);
      assert HeadScalar(head + tail) as char == s[0];
      assert s == [s[0]] + s[1..];
    }
  }

  /** Six-bit groups: `q * 0x40 + r` splits back into `q` and `r`. */
  lemma Split64(q: int, r: int)
    requires 0 <= r < 0x40
    ensures (q * 0x40 + r) / 0x40 == q && (q * 0x40 + r) % 0x40 == r
  {
  }

  lemma EncodeOfHead2(bs: seq<byte>)
    requires HeadLength(bs) == 2
    ensures EncodeChar(HeadScalar(bs) as char) == bs[..2]
  {
    var a, d := bs[0] as int - 0xC0, bs[1] as int - 0x80;
    var cp := HeadScalar(bs);
    assert cp == a * 0x40 + d;
    Split64(a, d);
    assert 0x80 <= cp < 0x800;
  }

  lemma EncodeOfHead3(bs: seq<byte>)
    requires HeadLength(bs) == 3
    ensures EncodeChar(HeadScalar(bs) as char) == bs[..3]
  {
    var a, b, d := bs[0] as int - 0xE0, bs[1] as int - 0x80, bs[2] as int - 0x80;
    var cp := HeadScalar(bs);
    var m := a * 0x40 + b;
    assert cp == m * 0x40 + d;
    Split64(m, d);
    Split64(a, b);
    assert a == 0 ==> b >= 0x20;
    assert 0x800 <= cp < 0x1_0000;
  }

  lemma EncodeOfHead4(bs: seq<byte>)
    requires HeadLength(bs) == 4
    ensures EncodeChar(HeadScalar(bs) as char) == bs[..4]
  {
    var a, e, b, d := bs[0] as int - 0xF0, bs[1] as int - 0x80, bs[2] as int - 0x80, bs[3] as int - 0x80;
    var cp := HeadScalar(bs);
    var n := a * 0x40 + e;
    var m := n * 0x40 + b;
    assert cp == m * 0x40 + d;
    Split64(m, d);
    Split64(n, b);
    Split64(a, e);
    assert a == 0 ==> e >= 0x10;
    assert 0x1_0000 <= cp;
  }

  /** A well-formed head sequence is the encoding of the character it decodes to. */
  lemma EncodeOfHead(bs: seq<byte>)
    requires HeadLength(bs) > 0
    ensures EncodeChar(HeadScalar(bs) as char) == bs[..HeadLength(bs)]
  {
    var n := HeadLength(bs);
    if n == 1 {
    } else if n == 2 {
      EncodeOfHead2(bs);
    } else if n == 3 {
      EncodeOfHead3(bs);
    } else {
      EncodeOfHead4(bs);
    }
  }

  /**
   * Encoding undoes decoding: the decoder accepts only bytes that are the
   * UTF-8 encoding of what they decode to, so no two byte strings decode
   * to the same text.
   */
  lemma {:induction false} EncodeDecode(bs: seq<byte>, s: string)
    requires Decode(bs) == Some(s)
    ensures Encode(s) == bs
    decreases |bs|
  {
    if bs != [] {
      DecodeHead(bs);
      var rest := Decode(bs[HeadLength(bs)..]).value;
      EncodeDecode(bs[HeadLength(bs)..], rest);
      EncodeHeadCons(bs, rest);
    }
  }

  /** A non-empty input that decodes starts with a well-formed sequence, and the rest decodes too. */
  lemma DecodeHead(bs: seq<byte>)
    requires bs != [] && Decode(bs).Some?
    ensures HeadLength(bs) > 0
    ensures Decode(bs[HeadLength(bs)..]).Some?
    ensures Decode(bs).value == [HeadScalar(bs) as char] + Decode(bs[HeadLength(bs)..]).value
  {
  }

  /** A text that starts with the character a well-formed head decodes to encodes to that head first. */
  lemma EncodeHeadCons(bs: seq<byte>, rest: string)
    requires HeadLength(bs) > 0
    ensures Encode(rest) == bs[HeadLength(bs)..] ==> Encode([HeadScalar(bs) as char] + rest) == bs
  {
    var c := HeadScalar(bs) as char;
    assert ([c] + rest)[1..] == rest;
    EncodeOfHead(bs);
    assert bs == bs[..HeadLength(bs)] + bs[HeadLength(bs)..];
  }


  /** The high (first) surrogate of a character above U+FFFF. */
  function HighSurrogate(cp: int): int {
    0xD800 + (cp - 0x1_0000) / 0x400
  }

  /** The low (second) surrogate of a character above U+FFFF. */
  function LowSurrogate(cp: int): int {
    0xDC00 + (cp - 0x1_0000) % 0x400
  }

  /**
   * The bytes the encryption library on the page makes of one UTF-16 code
   * unit: one byte below 0x80, two below 0x800, three otherwise
   * (`c >> 12` is written `u / 0x40 / 0x40`).
   */
  function EncodeUnit(u: int): (bs: seq<byte>)
    requires 0 <= u < 0x1_0000
    ensures 1 <= |bs| <= 3
  {
    if u < 0x80 then [u as byte]
    else if u < 0x800 then [(0xC0 + u / 0x40) as byte, (0x80 + u % 0x40) as byte]
    else [(0xE0 + u / 0x40 / 0x40) as byte, (0x80 + u / 0x40 % 0x40) as byte, (0x80 + u % 0x40) as byte]
  }

  /**
   * The bytes the page encrypts for a typed password: the string's UTF-16
   * code units, each converted on its own, so a character above U+FFFF
   * becomes its two surrogates, three bytes each.
   */
  function PageEncode(s: string): seq<byte> {
    if s == [] then []
    else
      var cp := s[0] as int;
      (if cp < 0x1_0000 then EncodeUnit(cp)
       else EncodeUnit(HighSurrogate(cp)) + EncodeUnit(LowSurrogate(cp))) + PageEncode(s[1..])
  }

  /** Every character of `s` lies in the Basic Multilingual Plane (up to U+FFFF). */
  predicate InBmp(s: string) {
    forall k :: 0 <= k < |s| ==> s[k] as int < 0x1_0000
  }

  /** Within the Basic Multilingual Plane the page's bytes are exactly the UTF-8 encoding. */
  lemma {:induction false} PageEncodeOnBmp(s: string)
    requires InBmp(s)
    ensures PageEncode(s) == Encode(s)
  {
    if s != [] {
      PageEncodeOnBmp(s[1..]);
    }
  }

  /** The bytes of a high surrogate open a three-byte form the strict decoder refuses. */
  lemma SurrogateHeadRefused(cp: int, rest: seq<byte>)
    requires 0x1_0000 <= cp < 0x11_0000
    ensures HeadLength(EncodeUnit(HighSurrogate(cp)) + rest) == 0
  {
    var hi := HighSurrogate(cp);
    var m := hi / 0x40;
    assert 0xD800 <= hi < 0xDC00;
    assert 0x360 <= m < 0x370;
    assert m / 0x40 == 0xD;
    assert 0x20 <= m % 0x40 < 0x30;
    var bs := EncodeUnit(hi) + rest;
    assert bs[0] == 0xED && 0xA0 <= bs[1] < 0xB0;
  }

  /**
   * A string holding any character above U+FFFF is never recovered from
   * the page's bytes: strict decoding refuses the surrogate it meets.
   */
  lemma {:induction false} AstralPageBytesRefused(s: string)
    requires !InBmp(s)
    ensures Decode(PageEncode(s)) == None
  {
    var cp := s[0] as int;
    var rest := PageEncode(s[1..]);
    if cp < 0x1_0000 {
      var k :| 0 <= k < |s| && s[k] as int >= 0x1_0000;
      assert k > 0 && s[1..][k - 1] == s[k];
      AstralPageBytesRefused(s[1..]);
      assert EncodeUnit(cp) == EncodeChar(s[0]);
      HeadOfEncodeChar(s[0], rest);
      var bs := EncodeChar(s[0]) + rest;
      assert bs[|EncodeChar(s[0])|..] == rest;
    } else {
      SurrogateHeadRefused(cp, EncodeUnit(LowSurrogate(cp)) + rest);
      assert PageEncode(s) == EncodeUnit(HighSurrogate(cp)) + (EncodeUnit(LowSurrogate(cp)) + rest);
    }
  }

  /** A lone continuation byte, an overlong form and an encoded surrogate are all refused. */
  lemma MalformedInputsAreRefused()
    ensures Decode([0x80]) == None
    ensures Decode([0xC0, 0x80]) == None
    ensures Decode([0xED, 0xA0, 0x80]) == None
  {
  }
}
