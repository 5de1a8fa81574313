/** UTF-8 as RFC 3629 section 4 defines it: the well-formed byte sequences
    and the scalar value each one encodes. `Decode` is Rust's
    `std::str::from_utf8`, including the `valid_up_to` offset of its error. */
module Utf8 {
  import opened Wrappers
  import opened Bounded

  /** The number of bytes a lead byte announces; 0 for bytes that cannot
      start a character (continuation bytes, C0, C1 and F5-FF). */
  function Width(b: u8): nat {
    if b < 0x80 then 1
    else if 0xC2 <= b <= 0xDF then 2
    else if 0xE0 <= b <= 0xEF then 3
    else if 0xF0 <= b <= 0xF4 then 4
    else 0
  }

  predicate IsTail(b: u8) {
    0x80 <= b <= 0xBF
  }

  /** The second-byte ranges of the RFC 3629 grammar: the narrowed ranges
      after E0, ED, F0 and F4 exclude overlong forms, surrogates and values
      above U+10FFFF. */
  predicate SecondOk(b0: u8, b1: u8) {
    if b0 == 0xE0 then 0xA0 <= b1 <= 0xBF
    else if b0 == 0xED then 0x80 <= b1 <= 0x9F
    else if b0 == 0xF0 then 0x90 <= b1 <= 0xBF
    else if b0 == 0xF4 then 0x80 <= b1 <= 0x8F
    else IsTail(b1)
  }

  /** The length of the well-formed character at the front of `s`, or 0 when
      `s` does not start with one. */
  function CharLen(s: seq<u8>): (n: nat)
    ensures n <= 4 && n <= |s|
    ensures n > 0 ==> n == Width(s[0])
  {
    if |s| == 0 then 0
    else
      var w := Width(s[0]);
      if w == 0 || |s| < w then 0
      else if w >= 2 && !SecondOk(s[0], s[1]) then 0
      else if w >= 3 && !IsTail(s[2]) then 0
      else if w == 4 && !IsTail(s[3]) then 0
      else w
  }

  /** The scalar value the character at the front of `s` encodes. */
  function CharValue(s: seq<u8>): char
    requires CharLen(s) > 0
  {
    var n := CharLen(s);
    var b0 := s[0] as int;
    if n == 1 then b0 as char
    else if n == 2 then ((b0 - 0xC0) * 0x40 + (s[1] as int - 0x80)) as char
    else if n == 3 then
      assert b0 == 0xED ==> s[1] <= 0x9F;
      ((b0 - 0xE0) * 0x1000 + (s[1] as int - 0x80) * 0x40 + (s[2] as int - 0x80)) as char
    else
      ((b0 - 0xF0) * 0x40000 + (s[1] as int - 0x80) * 0x1000 + (s[2] as int - 0x80) * 0x40
       + (s[3] as int - 0x80)) as char
  }

  /** The encoding of one scalar value, in the shortest form. */
  function EncodeChar(c: char): (r: seq<u8>)
    ensures 1 <= |r| <= 4
  {
    var n := c as int;
    if n < 0x80 then [n]
    else if n < 0x800 then [0xC0 + n / 0x40, 0x80 + n % 0x40]
    else if n < 0x10000 then
      [0xE0 + n / 0x1000, 0x80 + (n / 0x40) % 0x40, 0x80 + n % 0x40]
    else
      [0xF0 + n / 0x40000, 0x80 + (n / 0x1000) % 0x40, 0x80 + (n / 0x40) % 0x40,
       0x80 + n % 0x40]
  }

  function Encode(s: string): (r: seq<u8>)
    ensures |s| <= |r| <= 4 * |s|
  {
    if |s| == 0 then [] else EncodeChar(s[0]) + Encode(s[1..])
  }

  /** `from_utf8`: the decoded text, or the length of the longest prefix
      that is well formed. */
  function Decode(s: seq<u8>): (r: Result<string, nat>)
    ensures r.Failure? ==> r.error < |s|
    decreases |s|
  {
    if |s| == 0 then Success([])
    else
      var n := CharLen(s);
      if n == 0 then Failure(0)
      else match Decode(s[n..])
        case Success(t) => Success([CharValue(s)] + t)
        case Failure(k) => Failure(n + k)
  }

  // ---------------------------------------------------------------------
  // One character
  // ---------------------------------------------------------------------

  /** Every scalar value encodes to a well-formed character that decodes
      back to it. */
  lemma EncodeCharWellFormed(c: char)
    ensures CharLen(EncodeChar(c)) == |EncodeChar(c)|
    ensures CharValue(EncodeChar(c)) == c
  {
    var n := c as int;
    if n < 0x80 {
    } else if n < 0x800 {
      EncodeTwo(c);
    } else if n < 0x10000 {
      EncodeThree(c);
    } else {
      EncodeFour(c);
    }
  }

  lemma EncodeTwo(c: char)
    requires 0x80 <= c as int < 0x800
    ensures CharLen(EncodeChar(c)) == 2 == |EncodeChar(c)|
    ensures CharValue(EncodeChar(c)) == c
  {
    var n := c as int;
    var hi, lo := n / 0x40, n % 0x40;
    Digits64(n);
    var r := EncodeChar(c);
    assert r == [0xC0 + hi, 0x80 + lo];
    assert Width(r[0]) == 2 && SecondOk(r[0], r[1]);
  }

  lemma EncodeThree(c: char)
    requires 0x800 <= c as int < 0x10000
    ensures CharLen(EncodeChar(c)) == 3 == |EncodeChar(c)|
    ensures CharValue(EncodeChar(c)) == c
  {
    var n := c as int;
    var hi, mid, lo := n / 0x1000, (n / 0x40) % 0x40, n % 0x40;
    Digits4096(n);
    var r := EncodeChar(c);
    assert r == [0xE0 + hi, 0x80 + mid, 0x80 + lo];
    assert Width(r[0]) == 3 && SecondOk(r[0], r[1]) && IsTail(r[2]);
  }

  lemma EncodeFour(c: char)
    requires 0x10000 <= c as int
    ensures CharLen(EncodeChar(c)) == 4 == |EncodeChar(c)|
    ensures CharValue(EncodeChar(c)) == c
  {
    var n := c as int;
    var top, hi, mid, lo := n / 0x40000, (n / 0x1000) % 0x40, (n / 0x40) % 0x40, n % 0x40;
    Digits262144(n);
    var r := EncodeChar(c);
    assert r == [0xF0 + top, 0x80 + hi, 0x80 + mid, 0x80 + lo];
    assert Width(r[0]) == 4 && SecondOk(r[0], r[1]) && IsTail(r[2]) && IsTail(r[3]);
  }

  /** Base-64 digits of a two-byte scalar value. */
  lemma Digits64(n: int)
    requires 0x80 <= n < 0x800
    ensures n == (n / 0x40) * 0x40 + n % 0x40
    ensures 2 <= n / 0x40 < 0x20 && 0 <= n % 0x40 < 0x40
  {
  }

  /** Base-64 digits of a three-byte scalar value, with the limits that keep
      it out of the overlong and surrogate forms. */
  lemma Digits4096(n: int)
    requires 0x800 <= n < 0x10000
    ensures n == (n / 0x1000) * 0x1000 + ((n / 0x40) % 0x40) * 0x40 + n % 0x40
    ensures 0 <= n / 0x1000 < 0x10 && 0 <= (n / 0x40) % 0x40 < 0x40 && 0 <= n % 0x40 < 0x40
    ensures n / 0x1000 == 0 ==> (n / 0x40) % 0x40 >= 0x20
    ensures n / 0x1000 == 0xD && !(0xD800 <= n < 0xE000) ==> (n / 0x40) % 0x40 < 0x20
  {
    assert n / 0x40 == (n / 0x1000) * 0x40 + (n / 0x40) % 0x40;
    assert n == (n / 0x40) * 0x40 + n % 0x40;
  }

  /** Base-64 digits of a four-byte scalar value, with the limits that keep
      it out of the overlong forms and below U+110000. */
  lemma Digits262144(n: int)
    requires 0x10000 <= n < 0x110000
    ensures n == (n / 0x40000) * 0x40000 + ((n / 0x1000) % 0x40) * 0x1000
                 + ((n / 0x40) % 0x40) * 0x40 + n % 0x40
    ensures 0 <= n / 0x40000 <= 4 && 0 <= (n / 0x1000) % 0x40 < 0x40
    ensures 0 <= (n / 0x40) % 0x40 < 0x40 && 0 <= n % 0x40 < 0x40
    ensures n / 0x40000 == 0 ==> (n / 0x1000) % 0x40 >= 0x10
    ensures n / 0x40000 == 4 ==> (n / 0x1000) % 0x40 < 0x10
  {
    assert n / 0x1000 == (n / 0x40000) * 0x40 + (n / 0x1000) % 0x40;
    assert n / 0x40 == (n / 0x1000) * 0x40 + (n / 0x40) % 0x40;
    assert n == (n / 0x40) * 0x40 + n % 0x40;
  }

  /** Writing the front character back gives the bytes it was read from. */
  lemma CharValueEncodes(s: seq<u8>)
    requires CharLen(s) > 0
    ensures EncodeChar(CharValue(s)) == s[..CharLen(s)]
  {
    var n := CharLen(s);
    if n == 2 {
      ValueTwoEncodes(s);
    } else if n == 3 {
      ValueThreeEncodes(s);
    } else if n == 4 {
      ValueFourEncodes(s);
    }
  }

  lemma ValueTwoEncodes(s: seq<u8>)
    requires CharLen(s) == 2
    ensures EncodeChar(CharValue(s)) == s[..2]
  {
    var a, b := s[0] as int - 0xC0, s[1] as int - 0x80;
    var v := CharValue(s) as int;
    assert v == a * 0x40 + b;
    Join64(a, b);
  }

  lemma ValueThreeEncodes(s: seq<u8>)
    requires CharLen(s) == 3
    ensures EncodeChar(CharValue(s)) == s[..3]
  {
    var a, b, c := s[0] as int - 0xE0, s[1] as int - 0x80, s[2] as int - 0x80;
    var v := CharValue(s) as int;
    assert v == a * 0x1000 + b * 0x40 + c;
    Join4096(a, b, c);
  }

  lemma ValueFourEncodes(s: seq<u8>)
    requires CharLen(s) == 4
    ensures EncodeChar(CharValue(s)) == s[..4]
  {
    var a, b, c, d := s[0] as int - 0xF0, s[1] as int - 0x80, s[2] as int - 0x80, s[3] as int - 0x80;
    var v := CharValue(s) as int;
    assert v == a * 0x40000 + b * 0x1000 + c * 0x40 + d;
    Join262144(a, b, c, d);
  }

  /** Reading base-64 digits back out of the value they make. */
  lemma Join64(a: int, b: int)
    requires 0 <= a && 0 <= b < 0x40
    ensures (a * 0x40 + b) / 0x40 == a && (a * 0x40 + b) % 0x40 == b
  {
  }

  lemma Join4096(a: int, b: int, c: int)
    requires 0 <= a && 0 <= b < 0x40 && 0 <= c < 0x40
    ensures var v := a * 0x1000 + b * 0x40 + c;
            v / 0x1000 == a && (v / 0x40) % 0x40 == b && v % 0x40 == c
  {
    var v := a * 0x1000 + b * 0x40 + c;
    Join64(a * 0x40 + b, c);
    Join64(a, b);
    assert v == (a * 0x40 + b) * 0x40 + c;
    assert v / 0x40 == a * 0x40 + b;
    assert v / 0x1000 == (v / 0x40) / 0x40;
  }

  lemma Join262144(a: int, b: int, c: int, d: int)
    requires 0 <= a && 0 <= b < 0x40 && 0 <= c < 0x40 && 0 <= d < 0x40
    ensures var v := a * 0x40000 + b * 0x1000 + c * 0x40 + d;
            && v / 0x40000 == a && (v / 0x1000) % 0x40 == b
            && (v / 0x40) % 0x40 == c && v % 0x40 == d
  {
    var v := a * 0x40000 + b * 0x1000 + c * 0x40 + d;
    Join4096(a * 0x40 + b, c, d);
    Join64(a, b);
    assert v == (a * 0x40 + b) * 0x1000 + c * 0x40 + d;
    assert v / 0x1000 == a * 0x40 + b;
    assert v / 0x40000 == (v / 0x1000) / 0x40;
  }

  /** The front character is decided by its own bytes: what follows does not
      matter, and a prefix long enough to hold it reads the same. */
  lemma CharLenOfPrefix(s: seq<u8>, m: nat)
    requires m <= |s|
    ensures CharLen(s[..m]) > 0 ==>
              CharLen(s) == CharLen(s[..m]) && CharValue(s) == CharValue(s[..m])
    ensures CharLen(s) > 0 && m >= CharLen(s) ==> CharLen(s[..m]) == CharLen(s)
  {
  }

  // ---------------------------------------------------------------------
  // Whole strings
  // ---------------------------------------------------------------------

  /** Decoding undoes encoding. */
  lemma {:induction false} DecodeEncode(s: string)
    ensures Decode(Encode(s)) == Success(s)
  {
    if |s| > 0 {
      var e := EncodeChar(s[0]);
      var b := Encode(s);
      EncodeCharWellFormed(s[0]);
      assert b[..|e|] == e;
      CharLenOfPrefix(b, |e|);
      assert CharLen(b) == |e| && CharValue(b) == s[0];
      assert b[|e|..] == Encode(s[1..]);
      DecodeEncode(s[1..]);
      assert s == [s[0]] + s[1..];
    }
  }

  /** Encoding undoes decoding: well-formed byte strings are exactly the
      encodings of strings. */
  lemma {:induction false} EncodeDecode(b: seq<u8>)
    requires Decode(b).Success?
    ensures Encode(Decode(b).value) == b
  {
    if |b| > 0 {
      var n := CharLen(b);
      DecodeStep(b);
      EncodeDecode(b[n..]);
      CharValueEncodes(b);
      EncodeCons(CharValue(b), Decode(b[n..]).value);
      assert b == b[..n] + b[n..];
    }
  }

  /** A successful decode is the front character followed by the decode of
      the rest. */
  lemma DecodeStep(b: seq<u8>)
    requires |b| > 0 && Decode(b).Success?
    ensures CharLen(b) > 0 && Decode(b[CharLen(b)..]).Success?
    ensures Decode(b).value == [CharValue(b)] + Decode(b[CharLen(b)..]).value
  {
  }

  lemma EncodeCons(c: char, t: string)
    ensures Encode([c] + t) == EncodeChar(c) + Encode(t)
  {
    var d := [c] + t;
    assert d[0] == c && d[1..] == t;
  }

  /** The error offset marks the end of the well-formed part: the bytes
      before it decode and no character starts at it. */
  lemma {:induction false} ValidUpTo(s: seq<u8>)
    requires Decode(s).Failure?
    ensures Decode(s[..Decode(s).error]).Success?
    ensures CharLen(s[Decode(s).error..]) == 0
  {
    var k := Decode(s).error;
    var n := CharLen(s);
    if n > 0 {
      var rest := s[n..];
      var k' := Decode(rest).error;
      ValidUpTo(rest);
      assert s[k..] == rest[k'..];
      var p := s[..k];
      CharLenOfPrefix(s, k);
      assert p[n..] == rest[..k'];
    }
  }

  /** No prefix longer than the error offset decodes, so the offset is the
      length of the longest well-formed prefix. */
  lemma {:induction false} ValidUpToIsLongest(s: seq<u8>, j: nat)
    requires Decode(s).Failure?
    requires Decode(s).error < j <= |s|
    ensures Decode(s[..j]).Failure?
  {
    var n := CharLen(s);
    var p := s[..j];
    CharLenOfPrefix(s, j);
    if n == 0 {
      assert CharLen(p) == 0 && |p| > 0;
    } else {
      var rest := s[n..];
      assert Decode(rest).Failure? && Decode(s).error == n + Decode(rest).error;
      ValidUpToIsLongest(rest, j - n);
      assert CharLen(p) == n;
      assert p[n..] == rest[..j - n];
      assert Decode(p[n..]).Failure?;
    }
  }

  /** The example from the source's tests: C3 opens a two-byte character
      but 28 is not a continuation byte, so nothing is valid. */
  lemma InvalidSecondByte()
    ensures Decode([0xC3, 0x28]) == Failure(0)
  {
  }
}

/** UTF-16 as RFC 2781 section 2 defines it, and the byte serialisations of
    sections 3.1-3.2. `Decode` is Rust's `String::from_utf16`. */
module Utf16 {
  import opened Wrappers
  import opened Bounded

  predicate IsHighSurrogate(u: u16) { 0xD800 <= u <= 0xDBFF }
  predicate IsLowSurrogate(u: u16) { 0xDC00 <= u <= 0xDFFF }

  function EncodeChar(c: char): (r: seq<u16>)
    ensures |r| == 1 || |r| == 2
    ensures |r| == 1 <==> c as int < 0x10000
  {
    var n := c as int;
    if n < 0x10000 then [n]
    else
      var m := n - 0x10000;
      [0xD800 + m / 0x400, 0xDC00 + m % 0x400]
  }

  function Encode(s: string): seq<u16> {
    if |s| == 0 then [] else EncodeChar(s[0]) + Encode(s[1..])
  }

  /** `from_utf16`: `None` when a surrogate is not part of a high-low pair. */
  function Decode(units: seq<u16>): Option<string>
    decreases |units|
  {
    if |units| == 0 then Some([])
    else
      var u := units[0];
      if !IsHighSurrogate(u) && !IsLowSurrogate(u) then
        match Decode(units[1..])
        case None => None
        case Some(t) => Some([u as char] + t)
      else if IsHighSurrogate(u) && |units| >= 2 && IsLowSurrogate(units[1]) then
        var c := 0x10000 + (u as int - 0xD800) * 0x400 + (units[1] as int - 0xDC00);
        match Decode(units[2..])
        case None => None
        case Some(t) => Some([c as char] + t)
      else None
  }

  /** Decoding undoes encoding. */
  lemma {:induction false} DecodeEncode(s: string)
    ensures Decode(Encode(s)) == Some(s)
  {
    if |s| > 0 {
      var e := EncodeChar(s[0]);
      var u := Encode(s);
      assert u[|e|..] == Encode(s[1..]);
      DecodeEncode(s[1..]);
      if |e| == 2 {
        var m := s[0] as int - 0x10000;
        assert m == (m / 0x400) * 0x400 + m % 0x400;
        assert IsHighSurrogate(u[0]) && IsLowSurrogate(u[1]);
        assert 0x10000 + (u[0] as int - 0xD800) * 0x400 + (u[1] as int - 0xDC00) == s[0] as int;
      }
      assert s == [s[0]] + s[1..];
    }
  }

  /** Encoding undoes decoding. */
  lemma {:induction false} EncodeDecode(units: seq<u16>)
    requires Decode(units).Some?
    ensures Encode(Decode(units).value) == units
  {
    if |units| > 0 {
      var u := units[0];
      if !IsHighSurrogate(u) && !IsLowSurrogate(u) {
        EncodeDecode(units[1..]);
        assert units == [u] + units[1..];
      } else {
        var m := (u as int - 0xD800) * 0x400 + (units[1] as int - 0xDC00);
        assert m / 0x400 == u - 0xD800 && m % 0x400 == units[1] - 0xDC00;
        EncodeDecode(units[2..]);
        assert units == [u, units[1]] + units[2..];
      }
    }
  }

  /** A high surrogate at the end, or a low one on its own, is rejected. */
  lemma UnpairedSurrogates(units: seq<u16>)
    ensures Decode(units + [0xD800]).None?
    ensures Decode([0xDC00] + units).None?
  {
    UnpairedHighAtEnd(units);
  }

  lemma {:induction false} UnpairedHighAtEnd(units: seq<u16>)
    ensures Decode(units + [0xD800]).None?
    decreases |units|
  {
    var v := units + [0xD800];
    if |units| > 0 {
      var u := units[0];
      if !IsHighSurrogate(u) && !IsLowSurrogate(u) {
        assert v[1..] == units[1..] + [0xD800];
        UnpairedHighAtEnd(units[1..]);
      } else if IsHighSurrogate(u) && |v| >= 2 && IsLowSurrogate(v[1]) {
        assert |units| >= 2;
        assert v[2..] == units[2..] + [0xD800];
        UnpairedHighAtEnd(units[2..]);
      }
    }
  }

  // ---------------------------------------------------------------------
  // Byte order
  // ---------------------------------------------------------------------

  /** `u16::from_le_bytes` / `u16::from_be_bytes` over `chunks_exact(2)`. */
  function Units(b: seq<u8>, bigEndian: bool): (r: seq<u16>)
    requires |b| % 2 == 0
    ensures |r| == |b| / 2
  {
    if |b| == 0 then []
    else
      var lo, hi := if bigEndian then b[1] as int else b[0] as int,
                    if bigEndian then b[0] as int else b[1] as int;
      [hi * 0x100 + lo] + Units(b[2..], bigEndian)
  }

  /** The serialisation `Units` reads. */
  function Bytes(units: seq<u16>, bigEndian: bool): (r: seq<u8>)
    ensures |r| == 2 * |units|
  {
    if |units| == 0 then []
    else
      var u := units[0];
      (if bigEndian then [u / 0x100, u % 0x100] else [u % 0x100, u / 0x100])
      + Bytes(units[1..], bigEndian)
  }

  lemma {:induction false} UnitsBytes(units: seq<u16>, bigEndian: bool)
    ensures Units(Bytes(units, bigEndian), bigEndian) == units
  {
    if |units| > 0 {
      var b := Bytes(units, bigEndian);
      assert b[2..] == Bytes(units[1..], bigEndian);
      UnitsBytes(units[1..], bigEndian);
    }
  }

  lemma {:induction false} BytesUnits(b: seq<u8>, bigEndian: bool)
    requires |b| % 2 == 0
    ensures Bytes(Units(b, bigEndian), bigEndian) == b
  {
    if |b| > 0 {
      BytesUnits(b[2..], bigEndian);
      assert b == b[..2] + b[2..];
    }
  }
}
