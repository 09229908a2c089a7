/** Printing and parsing of node keys: Base16 (section 8 of RFC 4648), with a version prefix. */
module NodeKey {
  import opened Text

  type Byte = b: int | 0 <= b < 256

  const NODE_KEY_BYTES: nat := 32
  const NODE_KEY_PREFIX: string := "keryx-node-key-v1:"

  datatype Parsed = Ok(bytes: seq<Byte>) | BadLength | BadHex

  // ---------- Printing ----------

  const HEX: string := "0123456789abcdef"

  function Digit(v: nat): char
    requires v < 16
  {
    HEX[v]
  }

  function Encode(bytes: seq<Byte>): string {
    if bytes == [] then ""
    else
      var b := bytes[|bytes| - 1];
      Encode(bytes[..|bytes| - 1]) + [Digit(b / 16), Digit(b % 16)]
  }

  method HexEncode(bytes: seq<Byte>) returns (out: string)
    ensures out == Encode(bytes)
  {
    out := "";
    for i := 0 to |bytes|
      invariant out == Encode(bytes[..i])
    {
      assert bytes[..i + 1][..i] == bytes[..i];
      out := out + [Digit(bytes[i] / 16)] + [Digit(bytes[i] % 16)];
    }
    assert bytes[..|bytes|] == bytes;
  }

  function ToPersisted(key: seq<Byte>): string {
    NODE_KEY_PREFIX + Encode(key)
  }

  // ---------- Text as bytes ----------

  /** The UTF-8 encoding of one character. */
  function Utf8Char(c: char): seq<Byte> {
    var n := c as int;
    if n < 0x80 then [n]
    else if n < 0x800 then [0xC0 + n / 64, 0x80 + n % 64]
    else if n < 0x10000 then [0xE0 + n / 4096, 0x80 + n / 64 % 64, 0x80 + n % 64]
    else [0xF0 + n / 262144, 0x80 + n / 4096 % 64, 0x80 + n / 64 % 64, 0x80 + n % 64]
  }

  function Utf8(s: string): seq<Byte> {
    if s == [] then [] else Utf8(s[..|s| - 1]) + Utf8Char(s[|s| - 1])
  }

  // ---------- Parsing ----------

  /** `hex_value`: sixteen for a byte that is not a hexadecimal digit. */
  function HexValue(b: Byte): (v: nat)
    ensures v <= 16
  {
    if 0x30 <= b <= 0x39 then b - 0x30
    else if 0x61 <= b <= 0x66 then b - 0x61 + 10
    else if 0x41 <= b <= 0x46 then b - 0x41 + 10
    else 16
  }

  predicate AllHex(s: string) {
    forall i :: 0 <= i < |s| ==> IsHex(s[i])
  }

  predicate AllHexBytes(bytes: seq<Byte>) {
    forall i :: 0 <= i < |bytes| ==> HexValue(bytes[i]) < 16
  }

  /** The byte written by the digits at `2 * i`. */
  function Pair(bytes: seq<Byte>, i: nat): Byte
    requires AllHexBytes(bytes) && 2 * i + 1 < |bytes|
  {
    16 * HexValue(bytes[2 * i]) + HexValue(bytes[2 * i + 1])
  }

  function DecodeBytes(n: nat, input: seq<Byte>): Parsed {
    if |input| != 2 * n then BadLength
    else if !AllHexBytes(input) then BadHex
    else Ok(seq(n, i requires 0 <= i < n => Pair(input, i)))
  }

  /** `hex_decode_exact` on the bytes of the text. */
  method HexDecodeExact(n: nat, input: seq<Byte>) returns (r: Parsed)
    ensures r == DecodeBytes(n, input)
  {
    if |input| != 2 * n {
      return BadLength;
    }
    var out: seq<Byte> := [];
    for i := 0 to n
      invariant |out| == i
      invariant forall j :: 0 <= j < 2 * i ==> HexValue(input[j]) < 16
      invariant forall j :: 0 <= j < i ==> out[j] == 16 * HexValue(input[2 * j]) + HexValue(input[2 * j + 1])
    {
      var hi, lo := HexValue(input[2 * i]), HexValue(input[2 * i + 1]);
      if hi == 16 || lo == 16 {
        return BadHex;
      }
      out := out + [16 * hi + lo];
    }
    assert out == DecodeBytes(n, input).bytes;
    r := Ok(out);
  }

  function StripPrefix(s: string): string {
    if NODE_KEY_PREFIX <= s then s[|NODE_KEY_PREFIX|..] else s
  }

  function FromPersisted(input: string): Parsed {
    DecodeBytes(NODE_KEY_BYTES, Utf8(StripPrefix(Trim(input))))
  }

  // ---------- Text and bytes agree on hexadecimal ----------

  /** Only ASCII digits encode to digit bytes, one byte each. */
  lemma {:induction false} Utf8Hex(s: string)
    ensures AllHexBytes(Utf8(s)) <==> AllHex(s)
    ensures AllHex(s) ==> |Utf8(s)| == |s| && forall i :: 0 <= i < |s| ==> Utf8(s)[i] == s[i] as int
  {
    if s != [] {
      var n := |s| - 1;
      Utf8Hex(s[..n]);
      var front, last := Utf8(s[..n]), Utf8Char(s[n]);
      Utf8CharHex(s[n]);
      AllHexBytesConcat(front, last);
      assert AllHex(s) <==> AllHex(s[..n]) && IsHex(s[n]);
    }
  }

  lemma Utf8CharHex(c: char)
    ensures AllHexBytes(Utf8Char(c)) <==> IsHex(c)
    ensures IsHex(c) ==> Utf8Char(c) == [c as int]
  {
    assert HexValue(Utf8Char(c)[0]) < 16 <==> IsHex(c);
  }

  lemma AllHexBytesConcat(a: seq<Byte>, b: seq<Byte>)
    ensures AllHexBytes(a + b) <==> AllHexBytes(a) && AllHexBytes(b)
  {
    hide HexValue;
    if AllHexBytes(a + b) {
      assert forall i :: 0 <= i < |a| ==> a[i] == (a + b)[i];
      assert forall i :: 0 <= i < |b| ==> b[i] == (a + b)[|a| + i];
    }
  }

  // ---------- Digits ----------

  lemma DigitValue(v: nat)
    requires v < 16
    ensures IsHex(Digit(v)) && !IsSpace(Digit(v)) && HexValue(Digit(v) as int) == v
  {
  }

  lemma ValueDigit(c: char)
    requires IsHex(c)
    ensures HexValue(c as int) < 16 && Digit(HexValue(c as int)) == LowerChar(c)
  {
  }

  lemma {:induction false} EncodeAt(bytes: seq<Byte>, i: nat)
    requires i < |bytes|
    ensures |Encode(bytes)| == 2 * |bytes|
    ensures Encode(bytes)[2 * i] == Digit(bytes[i] / 16) && Encode(bytes)[2 * i + 1] == Digit(bytes[i] % 16)
  {
    hide Digit;
    var n := |bytes| - 1;
    if n > 0 {
      EncodeAt(bytes[..n], if i < n then i else 0);
    }
  }

  lemma EncodeIsHex(bytes: seq<Byte>)
    ensures |Encode(bytes)| == 2 * |bytes| && AllHex(Encode(bytes))
  {
    hide Encode, Digit, IsHex;
    if bytes == [] {
      EncodeNothing();
    } else {
      EncodeAt(bytes, 0);
      forall j | 0 <= j < |Encode(bytes)| ensures IsHex(Encode(bytes)[j]) {
        EncodeAt(bytes, j / 2);
        DigitValue(bytes[j / 2] / 16);
        DigitValue(bytes[j / 2] % 16);
        assert j == 2 * (j / 2) || j == 2 * (j / 2) + 1;
      }
    }
  }

  lemma EncodeNothing()
    ensures Encode([]) == ""
  {
  }

  /** The sixteen digits are lower-case hexadecimal and increase, so they are those of Base16. */
  lemma DigitsAreBase16(v: nat, w: nat)
    requires v < w < 16
    ensures IsLowerHex(Digit(v)) && IsLowerHex(Digit(w)) && Digit(v) < Digit(w)
  {
  }

  // ---------- The number written ----------

  function DigitNumber(c: char): nat {
    if '0' <= c <= '9' then c as int - '0' as int
    else if 'a' <= c <= 'f' then c as int - 'a' as int + 10
    else if 'A' <= c <= 'F' then c as int - 'A' as int + 10
    else 0
  }

  /** The number a text writes in base 16, most significant digit first. */
  function Number16(text: string): nat {
    if text == [] then 0 else 16 * Number16(text[..|text| - 1]) + DigitNumber(text[|text| - 1])
  }

  function Number256(bytes: seq<Byte>): nat {
    if bytes == [] then 0 else 256 * Number256(bytes[..|bytes| - 1]) + bytes[|bytes| - 1]
  }

  lemma DigitIsItsNumber(v: nat)
    requires v < 16
    ensures DigitNumber(Digit(v)) == v
  {
  }

  lemma TwoMore(text: string, hi: char, lo: char)
    ensures Number16(text + [hi, lo]) == 256 * Number16(text) + 16 * DigitNumber(hi) + DigitNumber(lo)
  {
    hide DigitNumber;
    var longer := text + [hi, lo];
    assert longer[..|longer| - 1] == text + [hi];
    assert (text + [hi])[..|text|] == text;
  }

  /** Printing writes the bytes as one big-endian number. */
  lemma {:induction false} EncodeIsBase16(bytes: seq<Byte>)
    ensures Number16(Encode(bytes)) == Number256(bytes)
  {
    hide Digit, DigitNumber;
    if bytes != [] {
      var n := |bytes| - 1;
      EncodeIsBase16(bytes[..n]);
      DigitIsItsNumber(bytes[n] / 16);
      DigitIsItsNumber(bytes[n] % 16);
      TwoMore(Encode(bytes[..n]), Digit(bytes[n] / 16), Digit(bytes[n] % 16));
    }
  }

  lemma {:induction false} LowerNumber(text: string)
    requires AllHex(text)
    ensures Number16(Lower(text)) == Number16(text)
  {
    if text != [] {
      var n := |text| - 1;
      assert Lower(text)[..n] == Lower(text[..n]);
      LowerNumber(text[..n]);
    }
  }

  /** Parsing reads the big-endian number the text writes, in either case. */
  lemma DecodeIsBase16(n: nat, text: string)
    requires DecodeBytes(n, Utf8(text)).Ok?
    ensures Number256(DecodeBytes(n, Utf8(text)).bytes) == Number16(text)
  {
    hide Encode, Utf8, Digit, HexValue, IsHex, Number16, Number256;
    EncodeDecode(n, text);
    EncodeIsBase16(DecodeBytes(n, Utf8(text)).bytes);
    LowerNumber(text);
  }

  // ---------- Round trips ----------

  /** Parsing what was printed gives the bytes back. */
  lemma DecodeEncode(bytes: seq<Byte>)
    ensures DecodeBytes(|bytes|, Utf8(Encode(bytes))) == Ok(bytes)
  {
    hide Encode, Utf8, Digit, HexValue, IsHex;
    var text := Encode(bytes);
    EncodeIsHex(bytes);
    Utf8Hex(text);
    var r := DecodeBytes(|bytes|, Utf8(text));
    forall i | 0 <= i < |bytes| ensures r.bytes[i] == bytes[i] {
      EncodeAt(bytes, i);
      DigitValue(bytes[i] / 16);
      DigitValue(bytes[i] % 16);
    }
  }

  lemma PairDigits(hi: char, lo: char, b: Byte)
    requires IsHex(hi) && IsHex(lo) && b == 16 * HexValue(hi as int) + HexValue(lo as int)
    ensures Digit(b / 16) == LowerChar(hi) && Digit(b % 16) == LowerChar(lo)
  {
    hide HexValue, LowerChar, Digit;
    ValueDigit(hi);
    ValueDigit(lo);
    assert b / 16 == HexValue(hi as int) && b % 16 == HexValue(lo as int);
  }

  lemma ReprintAt(n: nat, text: string, i: nat)
    requires |text| == 2 * n && AllHex(text) && DecodeBytes(n, Utf8(text)).Ok? && i < n
    ensures var bytes := DecodeBytes(n, Utf8(text)).bytes;
            && Digit(bytes[i] / 16) == LowerChar(text[2 * i])
            && Digit(bytes[i] % 16) == LowerChar(text[2 * i + 1])
  {
    hide Utf8, HexValue, IsHex, LowerChar, Digit;
    Utf8Hex(text);
    PairDigits(text[2 * i], text[2 * i + 1], DecodeBytes(n, Utf8(text)).bytes[i]);
  }

  /** Printing what was parsed gives the text back in lower case. */
  lemma EncodeDecode(n: nat, text: string)
    requires DecodeBytes(n, Utf8(text)).Ok?
    ensures AllHex(text) && |text| == 2 * n
    ensures Encode(DecodeBytes(n, Utf8(text)).bytes) == Lower(text)
  {
    hide Encode, Utf8, Digit, HexValue, IsHex, LowerChar;
    Utf8Hex(text);
    var bytes := DecodeBytes(n, Utf8(text)).bytes;
    EncodeIsHex(bytes);
    hide AllHexBytes, DecodeBytes;
    forall j | 0 <= j < 2 * n ensures Encode(bytes)[j] == Lower(text)[j] {
      var i := j / 2;
      EncodeAt(bytes, i);
      ReprintAt(n, text, i);
      assert j == 2 * i || j == 2 * i + 1;
    }
  }

  lemma HexIsTight(s: string)
    requires AllHex(s)
    ensures Tight(s) && StripPrefix(s) == s
  {
  }

  /** A persisted key reads back as itself, whatever whitespace surrounds it, with the prefix or in the legacy unprefixed form. */
  lemma KeyRoundTrip(key: seq<Byte>, before: string, after: string)
    requires |key| == NODE_KEY_BYTES && AllSpace(before) && AllSpace(after)
    ensures ToPersisted(key) == "keryx-node-key-v1:" + Encode(key)
    ensures FromPersisted(before + ToPersisted(key) + after) == Ok(key)
    ensures FromPersisted(before + Encode(key) + after) == Ok(key)
  {
    hide Encode, Utf8, DecodeBytes, IsSpace, Trim, AllSpace, IsHex;
    var hex := Encode(key);
    EncodeIsHex(key);
    HexIsTight(hex);
    DecodeEncode(key);
    TrimPadded(before, hex, after);
    PrefixedIsTight(hex);
    TrimPadded(before, NODE_KEY_PREFIX + hex, after);
    assert (NODE_KEY_PREFIX + hex)[|NODE_KEY_PREFIX|..] == hex;
  }

  lemma PrefixedIsTight(hex: string)
    requires Tight(hex) && hex != []
    ensures Tight(NODE_KEY_PREFIX + hex)
  {
  }

  /** A key is accepted iff what is left after trimming and stripping is 64 hexadecimal digits, and reprinting it gives their lower case. */
  lemma AcceptedIffHex(input: string)
    ensures var text := Trim(input);
            var hex := if "keryx-node-key-v1:" <= text then text[|"keryx-node-key-v1:"|..] else text;
            && (FromPersisted(input).Ok? <==> |hex| == 64 && AllHex(hex))
            && (FromPersisted(input).Ok? ==> ToPersisted(FromPersisted(input).bytes) == "keryx-node-key-v1:" + Lower(hex))
  {
    hide Encode, Utf8, Digit, HexValue, IsHex, Trim;
    var hex := StripPrefix(Trim(input));
    Utf8Hex(hex);
    if FromPersisted(input).Ok? {
      EncodeDecode(NODE_KEY_BYTES, hex);
    }
  }
}
