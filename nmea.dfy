/**
 * The NMEA 0183 sentence codec shared by the four scripts: the XOR checksum
 * rendered with `%02X`, an independent validator for complete sentence lines,
 * and the three framing variants the scripts carry (plain, stripping, and the
 * "$$"-prefixed one).
 */
module Nmea {
  import opened PyStr

  // ------------------------------------------------------------- checksum

  /** `ord(c)` as a 32-bit word; every code point is below 0x110000, so nothing is lost. */
  function Ord(c: char): bv32 {
    (c as int) as bv32
  }

  /** XOR of `ord(ch)` over the characters of `s`, folded from the first to the last. */
  function XorFold(s: string): bv32 {
    if s == [] then 0 else XorFold(s[..|s| - 1]) ^ Ord(s[|s| - 1])
  }

  /** The checksum distributes over concatenation. */
  lemma {:induction false} XorFoldAppend(a: string, b: string)
    ensures XorFold(a + b) == XorFold(a) ^ XorFold(b)
  {
    if b == [] {
      assert a + b == a;
    } else {
      var init, c := b[..|b| - 1], b[|b| - 1];
      assert (a + b)[..|a + b| - 1] == a + init;
      assert (a + b)[|a + b| - 1] == c;
      XorFoldAppend(a, init);
      XorAssoc(XorFold(a), XorFold(init), Ord(c));
    }
  }

  lemma XorAssoc(x: bv32, y: bv32, z: bv32)
    ensures (x ^ y) ^ z == x ^ (y ^ z)
  {
  }

  predicate IsLatin1(s: string) {
    forall k :: 0 <= k < |s| ==> s[k] as int < 256
  }

  lemma XorChanges(a: bv32, b: bv32)
    requires a != 0
    ensures a ^ b != b
  {
  }

  lemma XorByte(a: bv32, b: bv32)
    requires a < 256 && b < 256
    ensures a ^ b < 256
  {
  }

  /** Characters below 256 give a checksum that fits one byte. */
  lemma {:induction false} XorFoldByte(s: string)
    requires IsLatin1(s)
    ensures XorFold(s) < 256
  {
    if s != [] {
      var init, c := s[..|s| - 1], s[|s| - 1];
      assert IsLatin1(init) by {
        forall k | 0 <= k < |init| ensures init[k] as int < 256 {
          assert init[k] == s[k];
        }
      }
      XorFoldByte(init);
      OrdByte(c);
      XorByte(XorFold(init), Ord(c));
    }
  }

  lemma OrdByte(c: char)
    requires c as int < 256
    ensures Ord(c) < 256
  {
  }

  // ---------------------------------------------------------- hex digits

  predicate IsUpperHex(c: char) {
    '0' <= c <= '9' || 'A' <= c <= 'F'
  }

  predicate IsHexDigit(c: char) {
    IsUpperHex(c) || 'a' <= c <= 'f'
  }

  predicate AllHex(s: string) {
    forall k :: 0 <= k < |s| ==> IsHexDigit(s[k])
  }

  function HexDigit(d: nat): (c: char)
    requires d < 16
    ensures IsUpperHex(c)
  {
    if d < 10 then ('0' as int + d) as char else ('A' as int + d - 10) as char
  }

  /** Value of one hex digit, either case. */
  function HexValue(c: char): (d: nat)
    requires IsHexDigit(c)
    ensures d < 16
  {
    if '0' <= c <= '9' then c as int - '0' as int
    else if 'A' <= c <= 'F' then c as int - 'A' as int + 10
    else c as int - 'a' as int + 10
  }

  /** `format(n, "X")`: upper-case hex digits of `n` without leading zeros. */
  function HexDigits(n: nat): (r: string)
    ensures 1 <= |r|
    ensures forall k :: 0 <= k < |r| ==> IsUpperHex(r[k])
    ensures |r| == 1 <==> n < 16
    ensures |r| <= 2 <==> n < 256
    decreases n
  {
    if n < 16 then [HexDigit(n)] else HexDigits(n / 16) + [HexDigit(n % 16)]
  }

  /** `f"{n:02X}"`: upper-case hex, padded with zeros to at least two digits. */
  function Hex02(n: nat): (r: string)
    ensures forall k :: 0 <= k < |r| ==> IsUpperHex(r[k])
    ensures |r| >= 2
    ensures |r| == 2 <==> n < 256
  {
    if n < 16 then ['0', HexDigit(n)] else HexDigits(n)
  }

  /** Value of a string of hex digits, most significant first. */
  function ParseHex(s: string): nat
    requires AllHex(s)
  {
    if s == [] then 0 else 16 * ParseHex(s[..|s| - 1]) + HexValue(s[|s| - 1])
  }

  lemma HexValueOfDigit(d: nat)
    requires d < 16
    ensures HexValue(HexDigit(d)) == d
  {
  }

  lemma {:induction false} ParseHexDigits(n: nat)
    ensures ParseHex(HexDigits(n)) == n
    decreases n
  {
    HexValueOfDigit(n % 16);
    if n >= 16 {
      var r := HexDigits(n);
      assert r[..|r| - 1] == HexDigits(n / 16);
      ParseHexDigits(n / 16);
    }
  }

  /** Reading the two-or-more rendered digits back gives the number. */
  lemma ParseHex02(n: nat)
    ensures ParseHex(Hex02(n)) == n
  {
    if n < 16 {
      HexValueOfDigit(n);
      HexValueOfDigit(0);
      assert Hex02(n)[..1] == [HexDigit(0)];
      assert [HexDigit(0)][..0] == [];
    } else {
      ParseHexDigits(n);
    }
  }

  /** `nmea_checksum(body)`: the XOR of the character codes, rendered as `%02X`. */
  function Checksum(body: string): (cs: string)
    ensures |cs| >= 2 && forall k :: 0 <= k < |cs| ==> IsUpperHex(cs[k])
    ensures ParseHex(cs) == XorFold(body) as int
    ensures IsLatin1(body) ==> |cs| == 2
  {
    ParseHex02(XorFold(body) as int);
    if IsLatin1(body) then
      XorFoldByte(body);
      Hex02(XorFold(body) as int)
    else
      Hex02(XorFold(body) as int)
  }

  /** The empty body has checksum "00". */
  lemma ChecksumEmpty()
    ensures Checksum("") == "00"
  {
    assert XorFold("") == 0;
    assert HexDigit(0) == '0';
  }

  /** The accumulator loop of `nmea_checksum`. */
  method NmeaChecksum(body: string) returns (cs: string)
    ensures cs == Checksum(body)
  {
    var csum: bv32 := 0;
    for i := 0 to |body|
      invariant csum == XorFold(body[..i])
    {
      assert body[..i + 1][..i] == body[..i];
      csum := csum ^ Ord(body[i]);
    }
    assert body[..|body|] == body;
    cs := Hex02(csum as int);
  }

  // ------------------------------------------------------------ validator

  datatype SentenceError = BadFraming | ChecksumMismatch

  /**
   * A complete NMEA 0183 sentence line: "$", a body without "*", "*", two hex
   * digits (either case), "\r\n", where the digits equal the XOR checksum of
   * the body. On success gives the body.
   */
  function ParseSentence(line: string): (r: Result<string, SentenceError>)
    ensures r.Ok? ==> '*' !in r.value && |line| == |r.value| + 6 && line[0] == '$'
    ensures r.Ok? ==> line == "$" + r.value + "*" + line[|line| - 4..|line| - 2] + "\r\n"
    ensures r.Ok? ==> AllHex(line[|line| - 4..|line| - 2]) && ParseHex(line[|line| - 4..|line| - 2]) == XorFold(r.value) as int
  {
    if |line| < 6 || line[0] != '$' || line[|line| - 2..] != "\r\n" || line[|line| - 5] != '*' then
      Err(BadFraming)
    else
      var body := line[1..|line| - 5];
      var digits := line[|line| - 4..|line| - 2];
      if '*' in body || !AllHex(digits) then Err(BadFraming)
      else if ParseHex(digits) != XorFold(body) as int then Err(ChecksumMismatch)
      else
        assert line == line[..1] + body + line[|line| - 5..|line| - 4] + digits + line[|line| - 2..];
        Ok(body)
  }

  // -------------------------------------------------------------- framing

  /** The text `make_nmea` builds before encoding it. */
  function FrameText(body: string): string {
    "$" + body + "*" + Checksum(body) + "\r\n"
  }

  lemma FrameTextAscii(body: string)
    ensures IsAscii(FrameText(body)) <==> IsAscii(body)
  {
    var cs := Checksum(body);
    assert IsAscii(cs);
    AsciiAppend("$", body);
    AsciiAppend("$" + body, "*");
    AsciiAppend("$" + body + "*", cs);
    AsciiAppend("$" + body + "*" + cs, "\r\n");
  }

  /** For a body without "*" the frame holds exactly one "*", right after the body. */
  lemma FrameTextOneStar(body: string)
    requires '*' !in body
    ensures forall k :: 0 <= k < |FrameText(body)| ==> (FrameText(body)[k] == '*' <==> k == |body| + 1)
  {
    var f, cs := FrameText(body), Checksum(body);
    forall k | 0 <= k < |f| ensures f[k] == '*' <==> k == |body| + 1 {
      if 1 <= k <= |body| {
        assert f[k] == body[k - 1];
      } else if |body| + 2 <= k < |body| + 2 + |cs| {
        assert f[k] == cs[k - |body| - 2];
      }
    }
  }

  /**
   * How the validator reads "$" + inner + "*" + two hex digits + "\r\n": the
   * framing is accepted, and the result hinges on the digits alone.
   */
  lemma ParseFramed(inner: string, digits: string)
    requires '*' !in inner && |digits| == 2 && AllHex(digits)
    ensures ParseSentence("$" + inner + "*" + digits + "\r\n") ==
      if ParseHex(digits) == XorFold(inner) as int then Ok(inner) else Err(ChecksumMismatch)
  {
    var f := "$" + inner + "*" + digits + "\r\n";
    assert f[0] == '$';
    assert f[|f| - 2..] == "\r\n";
    assert f[|f| - 5] == '*';
    assert f[1..|f| - 5] == inner;
    assert f[|f| - 4..|f| - 2] == digits;
  }

  /** A framed body without "*" whose characters are below 256 validates back to that body. */
  lemma FrameTextValidates(body: string)
    requires IsLatin1(body) && '*' !in body
    ensures ParseSentence(FrameText(body)) == Ok(body)
  {
    ParseFramed(body, Checksum(body));
  }

  /** autospof.py `make_nmea`: frames the body as is and encodes it as strict ASCII. */
  function MakeNmea(body: string): (r: Result<seq<Byte>, EncodeError>)
    ensures r.Ok? <==> IsAscii(body)
    ensures r.Ok? ==> IsAsciiBytes(r.value)
    ensures r.Ok? ==> DecodeAsciiIgnore(r.value) == "$" + body + "*" + Checksum(body) + "\r\n"
  {
    FrameTextAscii(body);
    if IsAscii(body) then
      DecodeEncode(FrameText(body));
      EncodeAscii(FrameText(body))
    else
      EncodeAscii(FrameText(body))
  }

  /** What `make_nmea` emits for an ASCII body without "*" is a valid sentence carrying that body. */
  lemma MakeNmeaValidates(body: string)
    requires IsAscii(body) && '*' !in body
    ensures MakeNmea(body).Ok?
    ensures ParseSentence(DecodeAsciiIgnore(MakeNmea(body).value)) == Ok(body)
  {
    FrameTextValidates(body);
  }

  /** ramdom.py and spof2.py `make_nmea`: strips the body, then frames and encodes the stripped text. */
  function MakeNmeaStripped(body: string): (r: Result<seq<Byte>, EncodeError>)
    ensures r.Ok? <==> IsAscii(Strip(body))
    ensures r.Ok? ==> IsAsciiBytes(r.value)
    ensures r.Ok? ==> DecodeAsciiIgnore(r.value) == "$" + Strip(body) + "*" + Checksum(Strip(body)) + "\r\n"
  {
    MakeNmea(Strip(body))
  }

  /** The stripping variant's sentence carries, and is checksummed over, the stripped body. */
  lemma MakeNmeaStrippedValidates(body: string)
    requires IsAscii(body) && '*' !in body
    ensures MakeNmeaStripped(body).Ok?
    ensures ParseSentence(DecodeAsciiIgnore(MakeNmeaStripped(body).value)) == Ok(Strip(body))
  {
    StripAscii(body);
    MakeNmeaValidates(Strip(body));
  }

  /**
   * spofer.py `make_nmea`: the f-string "$${body}*{cs}\r\n" puts TWO dollar
   * signs in front of the unstripped body; the checksum covers the body only.
   */
  function MakeNmeaDoubleDollar(body: string): (r: Result<seq<Byte>, EncodeError>)
    ensures r.Ok? <==> IsAscii(body)
    ensures r.Ok? ==> IsAsciiBytes(r.value)
    ensures r.Ok? ==> DecodeAsciiIgnore(r.value) == "$$" + body + "*" + Checksum(body) + "\r\n"
  {
    var text := "$$" + body + "*" + Checksum(body) + "\r\n";
    assert text == "$" + FrameText(body);
    FrameTextAscii(body);
    AsciiAppend("$", FrameText(body));
    if IsAscii(text) then
      DecodeEncode(text);
      EncodeAscii(text)
    else
      EncodeAscii(text)
  }

  /**
   * Every frame of the "$$" variant fails validation: the validator reads
   * "$" + body as the body, and that checksum differs from the one appended
   * by the code of "$" (0x24).
   */
  lemma DoubleDollarRejected(body: string)
    requires IsAscii(body) && '*' !in body
    ensures MakeNmeaDoubleDollar(body).Ok?
    ensures ParseSentence(DecodeAsciiIgnore(MakeNmeaDoubleDollar(body).value)) == Err(ChecksumMismatch)
  {
    var inner, cs := "$" + body, Checksum(body);
    DoubleDollarText(body, cs);
    AsciiLatin1(body);
    assert '*' !in inner;
    ParseFramed(inner, cs);
    DollarChecksum(body);
  }

  lemma DoubleDollarText(body: string, cs: string)
    ensures "$$" + body + "*" + cs + "\r\n" == "$" + ("$" + body) + "*" + cs + "\r\n"
  {
  }

  lemma AsciiLatin1(s: string)
    requires IsAscii(s)
    ensures IsLatin1(s)
  {
  }

  /** A leading "$" changes the XOR checksum, by the code of "$" (0x24). */
  lemma DollarChecksum(body: string)
    ensures XorFold("$" + body) == 0x24 ^ XorFold(body)
    ensures XorFold("$" + body) != XorFold(body)
  {
    XorFoldAppend("$", body);
    XorFoldDollar();
    XorChanges(0x24, XorFold(body));
  }

  lemma XorFoldDollar()
    ensures XorFold("$") == 0x24
  {
    assert "$"[..0] == "";
    assert XorFold("") == 0;
  }
}
