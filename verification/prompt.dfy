/** Reading a prompt: `decode_prompt_bytes` sniffs byte-order marks and
    decodes, and `resolve_prompt` chooses between the argument and stdin. */
module PromptDecode {
  import opened Wrappers
  import opened Bounded
  import opened Text
  import Utf8
  import Utf16

  datatype PromptDecodeError =
    | InvalidUtf8(validUpTo: nat)
    | InvalidUtf16(encoding: string)
    | UnsupportedBom(encoding: string)

  /** The UTF-8 signature of RFC 3629 section 6 (U+FEFF encoded). */
  const UTF8_BOM: seq<u8> := [0xEF, 0xBB, 0xBF]
  const UTF32LE_BOM: seq<u8> := [0xFF, 0xFE, 0x00, 0x00]
  const UTF32BE_BOM: seq<u8> := [0x00, 0x00, 0xFE, 0xFF]
  /** The byte-order marks of RFC 2781 section 3.2. */
  const UTF16LE_BOM: seq<u8> := [0xFF, 0xFE]
  const UTF16BE_BOM: seq<u8> := [0xFE, 0xFF]

  predicate StartsWith(s: seq<u8>, prefix: seq<u8>) {
    |prefix| <= |s| && forall i | 0 <= i < |prefix| :: s[i] == prefix[i]
  }

  /** `strip_prefix(UTF8_BOM).unwrap_or(input)`. */
  function StripUtf8Bom(raw: seq<u8>): (r: seq<u8>)
    ensures StartsWith(raw, UTF8_BOM) ==> raw == UTF8_BOM + r
    ensures !StartsWith(raw, UTF8_BOM) ==> r == raw
  {
    if StartsWith(raw, UTF8_BOM) then
      assert raw == raw[..3] + raw[3..];
      raw[3..]
    else raw
  }

  /** `decode_utf16`: an odd byte count or an unpaired surrogate is an
      `InvalidUtf16` error naming the encoding. */
  function DecodeUtf16Bytes(input: seq<u8>, encoding: string, bigEndian: bool)
    : (r: Result<string, PromptDecodeError>)
    ensures r.Failure? ==> r.error == InvalidUtf16(encoding)
    ensures |input| % 2 != 0 ==> r.Failure?
    ensures r.Success? ==> |input| % 2 == 0 && Utf16.Units(input, bigEndian) == Utf16.Encode(r.value)
  {
    if |input| % 2 != 0 then Failure(InvalidUtf16(encoding))
    else
      match Utf16.Decode(Utf16.Units(input, bigEndian))
      case None => Failure(InvalidUtf16(encoding))
      case Some(t) =>
        Utf16.EncodeDecode(Utf16.Units(input, bigEndian));
        Success(t)
  }

  /** `decode_prompt_bytes`. The UTF-32 marks are tested before the UTF-16
      ones they begin with. */
  function DecodePromptBytes(raw: seq<u8>): (r: Result<string, PromptDecodeError>)
    ensures var input := StripUtf8Bom(raw);
            && (StartsWith(input, UTF32LE_BOM) ==> r == Failure(UnsupportedBom("UTF-32LE")))
            && (!StartsWith(input, UTF32LE_BOM) && StartsWith(input, UTF32BE_BOM) ==>
                  r == Failure(UnsupportedBom("UTF-32BE")))
            && (r.Success? && !StartsWith(input, UTF16LE_BOM) && !StartsWith(input, UTF16BE_BOM)
                ==> Utf8.Encode(r.value) == input)
  {
    var input := StripUtf8Bom(raw);
    if StartsWith(input, UTF32LE_BOM) then Failure(UnsupportedBom("UTF-32LE"))
    else if StartsWith(input, UTF32BE_BOM) then Failure(UnsupportedBom("UTF-32BE"))
    else if StartsWith(input, UTF16LE_BOM) then DecodeUtf16Bytes(input[2..], "UTF-16LE", false)
    else if StartsWith(input, UTF16BE_BOM) then DecodeUtf16Bytes(input[2..], "UTF-16BE", true)
    else
      match Utf8.Decode(input)
      case Success(t) =>
        Utf8.EncodeDecode(input);
        Success(t)
      case Failure(k) => Failure(InvalidUtf8(k))
  }

  // ---------------------------------------------------------------------
  // Round trips
  // ---------------------------------------------------------------------

  /** UTF-8 never uses the bytes FE and FF, nor any byte above F4. */
  lemma {:induction false} Utf8BytesBelowF5(s: string)
    ensures forall i | 0 <= i < |Utf8.Encode(s)| :: Utf8.Encode(s)[i] < 0xF5
  {
    if |s| > 0 {
      Utf8BytesBelowF5(s[1..]);
      var e := Utf8.EncodeChar(s[0]);
      Utf8.EncodeCharWellFormed(s[0]);
      assert Utf8.Encode(s) == e + Utf8.Encode(s[1..]);
    }
  }

  /** UTF-8 text cannot be mistaken for any of the other marks. */
  lemma Utf8NotOtherBom(s: string)
    ensures !StartsWith(Utf8.Encode(s), UTF32LE_BOM)
    ensures !StartsWith(Utf8.Encode(s), UTF32BE_BOM)
    ensures !StartsWith(Utf8.Encode(s), UTF16LE_BOM)
    ensures !StartsWith(Utf8.Encode(s), UTF16BE_BOM)
  {
    Utf8BytesBelowF5(s);
    var b := Utf8.Encode(s);
    if |b| >= 4 {
      assert b[2] != 0xFE;
    }
    if |b| >= 1 {
      assert b[0] != 0xFE && b[0] != 0xFF;
    }
  }

  /** Which branch of the decoder a byte string takes. */
  lemma Utf8Branch(input: seq<u8>)
    requires !StartsWith(input, UTF8_BOM) && !StartsWith(input, UTF32LE_BOM)
    requires !StartsWith(input, UTF32BE_BOM) && !StartsWith(input, UTF16LE_BOM)
    requires !StartsWith(input, UTF16BE_BOM)
    ensures Utf8.Decode(input).Success? ==>
              DecodePromptBytes(input) == Success(Utf8.Decode(input).value)
    ensures Utf8.Decode(input).Failure? ==>
              DecodePromptBytes(input) == Failure(InvalidUtf8(Utf8.Decode(input).error))
  {
  }

  lemma Utf16LeBranch(body: seq<u8>)
    ensures StartsWith(body, [0x00, 0x00]) ==>
              DecodePromptBytes(UTF16LE_BOM + body) == Failure(UnsupportedBom("UTF-32LE"))
    ensures !StartsWith(body, [0x00, 0x00]) ==>
              DecodePromptBytes(UTF16LE_BOM + body) == DecodeUtf16Bytes(body, "UTF-16LE", false)
  {
    var raw := UTF16LE_BOM + body;
    assert raw[2..] == body;
    assert raw[0] != UTF8_BOM[0] && raw[0] != UTF32BE_BOM[0];
  }

  lemma Utf16BeBranch(body: seq<u8>)
    ensures DecodePromptBytes(UTF16BE_BOM + body) == DecodeUtf16Bytes(body, "UTF-16BE", true)
  {
    var raw := UTF16BE_BOM + body;
    assert raw[2..] == body;
    assert raw[0] != UTF8_BOM[0] && raw[0] != UTF32LE_BOM[0];
    assert raw[0] != UTF32BE_BOM[0] && raw[0] != UTF16LE_BOM[0];
  }

  /** Serialised UTF-16 decodes back in either byte order. */
  lemma Utf16BytesRoundTrip(s: string, bigEndian: bool, encoding: string)
    ensures DecodeUtf16Bytes(Utf16.Bytes(Utf16.Encode(s), bigEndian), encoding, bigEndian) == Success(s)
  {
    Utf16.UnitsBytes(Utf16.Encode(s), bigEndian);
    Utf16.DecodeEncode(s);
  }

  /** UTF-8 text after a UTF-8 mark always reads back. */
  lemma Utf8WithBomRoundTrip(s: string)
    ensures DecodePromptBytes(UTF8_BOM + Utf8.Encode(s)) == Success(s)
  {
    var raw := UTF8_BOM + Utf8.Encode(s);
    assert raw[..3] == UTF8_BOM;
    assert StripUtf8Bom(raw) == Utf8.Encode(s);
    Utf8NotOtherBom(s);
    Utf8.DecodeEncode(s);
  }

  /** The UTF-8 mark is the encoding of U+FEFF. */
  lemma Utf8BomIsFeff()
    ensures Utf8.EncodeChar('\U{FEFF}') == UTF8_BOM
    ensures Utf8.CharLen(UTF8_BOM) == 3 && Utf8.CharValue(UTF8_BOM) == '\U{FEFF}'
  {
  }

  /** Encoded text starts with the UTF-8 mark exactly when the text starts
      with U+FEFF. */
  lemma Utf8StartsWithBom(s: string)
    ensures StartsWith(Utf8.Encode(s), UTF8_BOM) <==> |s| > 0 && s[0] == '\U{FEFF}'
    ensures |s| > 0 && s[0] == '\U{FEFF}' ==> Utf8.Encode(s) == UTF8_BOM + Utf8.Encode(s[1..])
  {
    var b := Utf8.Encode(s);
    Utf8BomIsFeff();
    if |s| > 0 {
      var e := Utf8.EncodeChar(s[0]);
      Utf8.EncodeCharWellFormed(s[0]);
      assert b == e + Utf8.Encode(s[1..]);
      if StartsWith(b, UTF8_BOM) {
        assert Utf8.Width(e[0]) == 3;
        assert e == UTF8_BOM;
      }
    } else {
      assert !StartsWith(b, UTF8_BOM);
    }
  }

  /** Unmarked UTF-8 text reads back unless it begins with U+FEFF, which is
      taken for a mark and dropped. */
  lemma Utf8WithoutBomRoundTrip(s: string)
    ensures |s| > 0 && s[0] == '\U{FEFF}' ==> DecodePromptBytes(Utf8.Encode(s)) == Success(s[1..])
    ensures !(|s| > 0 && s[0] == '\U{FEFF}') ==> DecodePromptBytes(Utf8.Encode(s)) == Success(s)
  {
    Utf8StartsWithBom(s);
    if |s| > 0 && s[0] == '\U{FEFF}' {
      Utf8WithBomRoundTrip(s[1..]);
    } else {
      Utf8NotOtherBom(s);
      Utf8.DecodeEncode(s);
      Utf8Branch(Utf8.Encode(s));
    }
  }

  /** Big-endian UTF-16 after its mark always reads back. */
  lemma Utf16BeRoundTrip(s: string)
    ensures DecodePromptBytes(UTF16BE_BOM + Utf16.Bytes(Utf16.Encode(s), true)) == Success(s)
  {
    Utf16BeBranch(Utf16.Bytes(Utf16.Encode(s), true));
    Utf16BytesRoundTrip(s, true, "UTF-16BE");
  }

  /** Little-endian UTF-16 text begins with two zero bytes exactly when
      the text begins with U+0000. */
  lemma Utf16LeLeadingZeros(s: string)
    ensures StartsWith(Utf16.Bytes(Utf16.Encode(s), false), [0x00, 0x00]) <==>
            |s| > 0 && s[0] == 0 as char
  {
    var units := Utf16.Encode(s);
    FirstUnitZero(s);
    LeBytesStartZero(units);
  }

  /** Only U+0000 encodes to a zero first code unit. */
  lemma FirstUnitZero(s: string)
    ensures |Utf16.Encode(s)| > 0 <==> |s| > 0
    ensures |s| > 0 ==> (Utf16.Encode(s)[0] == 0 <==> s[0] == 0 as char)
  {
    if |s| > 0 {
      var e := Utf16.EncodeChar(s[0]);
      assert Utf16.Encode(s) == e + Utf16.Encode(s[1..]);
      assert Utf16.Encode(s)[0] == e[0];
    }
  }

  /** Little-endian bytes start with two zeros exactly when the first code
      unit is zero. */
  lemma LeBytesStartZero(units: seq<u16>)
    ensures StartsWith(Utf16.Bytes(units, false), [0x00, 0x00]) <==> |units| > 0 && units[0] == 0
  {
    if |units| > 0 {
      var u := units[0];
      var body := Utf16.Bytes(units, false);
      assert body[0] == u % 0x100 && body[1] == u / 0x100;
      ZeroUnitBytes(u);
    }
  }

  /** A code unit is zero exactly when both of its bytes are. */
  lemma ZeroUnitBytes(u: u16)
    ensures u % 0x100 == 0 && u / 0x100 == 0 <==> u == 0
  {
  }

  /** Little-endian UTF-16 after its mark reads back, except that text
      starting with U+0000 puts 00 00 after FF FE and is taken for UTF-32LE. */
  lemma Utf16LeRoundTrip(s: string)
    ensures |s| > 0 && s[0] == 0 as char ==>
              DecodePromptBytes(UTF16LE_BOM + Utf16.Bytes(Utf16.Encode(s), false)) ==
              Failure(UnsupportedBom("UTF-32LE"))
    ensures !(|s| > 0 && s[0] == 0 as char) ==>
              DecodePromptBytes(UTF16LE_BOM + Utf16.Bytes(Utf16.Encode(s), false)) == Success(s)
  {
    Utf16LeBranch(Utf16.Bytes(Utf16.Encode(s), false));
    Utf16BytesRoundTrip(s, false, "UTF-16LE");
    Utf16LeLeadingZeros(s);
  }

  // ---------------------------------------------------------------------
  // Errors
  // ---------------------------------------------------------------------

  /** An odd number of bytes after a UTF-16 mark cannot be decoded. */
  lemma OddUtf16IsInvalid(body: seq<u8>)
    requires |body| % 2 == 1
    ensures DecodePromptBytes(UTF16BE_BOM + body) == Failure(InvalidUtf16("UTF-16BE"))
    ensures !StartsWith(body, [0x00, 0x00]) ==>
              DecodePromptBytes(UTF16LE_BOM + body) == Failure(InvalidUtf16("UTF-16LE"))
  {
    Utf16BeBranch(body);
    Utf16LeBranch(body);
  }

  /** For input without a recognised mark, an `InvalidUtf8` error carries
      the length of the longest well-formed prefix of the input after the
      UTF-8 mark. */
  lemma InvalidUtf8IsLongestValidPrefix(raw: seq<u8>, j: nat)
    requires DecodePromptBytes(raw).Failure? && DecodePromptBytes(raw).error.InvalidUtf8?
    ensures var input := StripUtf8Bom(raw);
            var k := DecodePromptBytes(raw).error.validUpTo;
            && k < |input|
            && Utf8.Decode(input[..k]).Success?
            && (k < j <= |input| ==> Utf8.Decode(input[..j]).Failure?)
  {
    var input := StripUtf8Bom(raw);
    Utf8.ValidUpTo(input);
    if Utf8.Decode(input).error < j <= |input| {
      Utf8.ValidUpToIsLongest(input, j);
    }
  }

  /** The byte strings exercised by the source's tests. */
  lemma Utf8BomExample()
    ensures DecodePromptBytes([0xEF, 0xBB, 0xBF, 0x68, 0x69, 0x0A]) == Success("hi\n")
  {
    Utf8WithBomRoundTrip("hi\n");
    assert Utf8.Encode("hi\n") == [0x68, 0x69, 0x0A];
    assert UTF8_BOM + [0x68, 0x69, 0x0A] == [0xEF, 0xBB, 0xBF, 0x68, 0x69, 0x0A];
  }

  /** "hi\n" is three code units, one per character. */
  lemma HiUnits()
    ensures Utf16.Encode("hi\n") == [0x68, 0x69, 0x0A]
  {
    assert "hi\n"[1..] == "i\n" && "i\n"[1..] == "\n" && "\n"[1..] == "";
  }

  lemma Utf16LeExample()
    ensures DecodePromptBytes([0xFF, 0xFE, 0x68, 0, 0x69, 0, 0x0A, 0]) == Success("hi\n")
  {
    var units: seq<u16> := [0x68, 0x69, 0x0A];
    HiUnits();
    assert units[1..] == [0x69, 0x0A] && units[2..] == [0x0A];
    assert Utf16.Bytes(units[2..], false) == [0x0A, 0];
    assert Utf16.Bytes(units[1..], false) == [0x69, 0, 0x0A, 0];
    var body := Utf16.Bytes(units, false);
    assert body == [0x68, 0, 0x69, 0, 0x0A, 0];
    Utf16BytesRoundTrip("hi\n", false, "UTF-16LE");
    assert body[0] != 0;
    Utf16LeBranch(body);
    assert UTF16LE_BOM + body == [0xFF, 0xFE, 0x68, 0, 0x69, 0, 0x0A, 0];
  }

  lemma Utf16BeExample()
    ensures DecodePromptBytes([0xFE, 0xFF, 0, 0x68, 0, 0x69, 0, 0x0A]) == Success("hi\n")
  {
    HiUnits();
    Utf16BeRoundTrip("hi\n");
    var units: seq<u16> := [0x68, 0x69, 0x0A];
    assert units[1..] == [0x69, 0x0A] && units[2..] == [0x0A];
    assert Utf16.Bytes(units[2..], true) == [0, 0x0A];
    assert Utf16.Bytes(units[1..], true) == [0, 0x69, 0, 0x0A];
    var body := Utf16.Bytes(units, true);
    assert body == [0, 0x68, 0, 0x69, 0, 0x0A];
    assert UTF16BE_BOM + body == [0xFE, 0xFF, 0, 0x68, 0, 0x69, 0, 0x0A];
  }

  lemma Utf32Examples()
    ensures DecodePromptBytes([0xFF, 0xFE, 0, 0, 0x68, 0, 0, 0]) == Failure(UnsupportedBom("UTF-32LE"))
    ensures DecodePromptBytes([0, 0, 0xFE, 0xFF, 0, 0, 0, 0x68]) == Failure(UnsupportedBom("UTF-32BE"))
  {
    var le: seq<u8> := [0xFF, 0xFE, 0, 0, 0x68, 0, 0, 0];
    assert le[0] != UTF8_BOM[0] && StartsWith(le, UTF32LE_BOM);
    var be: seq<u8> := [0, 0, 0xFE, 0xFF, 0, 0, 0, 0x68];
    assert be[0] != UTF8_BOM[0] && be[0] != UTF32LE_BOM[0] && StartsWith(be, UTF32BE_BOM);
  }

  lemma InvalidUtf8Example()
    ensures DecodePromptBytes([0xC3, 0x28]) == Failure(InvalidUtf8(0))
  {
    Utf8.InvalidSecondByte();
    Utf8Branch([0xC3, 0x28]);
  }

  // ---------------------------------------------------------------------
  // resolve_prompt
  // ---------------------------------------------------------------------

  /** What stdin offers: whether it is a terminal, and its bytes (`None` when
      reading fails). */
  datatype Stdin = Stdin(isTerminal: bool, contents: Option<seq<u8>>)

  /** `resolve_prompt`. An argument other than "-" is the prompt itself;
      otherwise stdin is read and decoded. The process exits where the model
      returns `Failure`. */
  function ResolvePrompt(arg: Option<string>, stdin: Stdin): (r: Result<string, string>)
    ensures arg.Some? && arg.value != "-" ==> r == Success(arg.value)
    ensures !(arg.Some? && arg.value != "-") && r.Success? ==>
              && !IsBlank(r.value)
              && stdin.contents.Some?
              && DecodePromptBytes(stdin.contents.value) == Success(r.value)
    ensures arg.None? && stdin.isTerminal ==> r.Failure?
  {
    if arg.Some? && arg.value != "-" then Success(arg.value)
    else
      var forceStdin := arg == Some("-");
      if stdin.isTerminal && !forceStdin then
        Failure("No prompt provided. Either specify one as an argument or pipe the prompt into stdin.")
      else
        match stdin.contents
        case None => Failure("Failed to read prompt from stdin")
        case Some(bytes) =>
          match DecodePromptBytes(bytes)
          case Failure(_) => Failure("Failed to read prompt from stdin")
          case Success(text) =>
            if IsBlank(text) then Failure("No prompt provided via stdin.") else Success(text)
  }
}
