/**
 * The few Python built-ins on `str` and `bytes` that the NMEA scripts rely on:
 * `str.strip()`, `str.splitlines()`, `str.startswith`/`endswith`,
 * `str.encode("ascii")` (strict and with `errors="ignore"`) and
 * `bytes.decode("ascii", errors="ignore")`.
 */
module PyStr {

  /** One octet of a Python `bytes` value. */
  type Byte = b: int | 0 <= b < 256

  datatype Result<+T, +E> = Ok(value: T) | Err(error: E)

  /** The exception a strict `str.encode("ascii")` raises. */
  datatype EncodeError = UnicodeEncodeError

  predicate IsAscii(s: string) {
    forall k :: 0 <= k < |s| ==> s[k] as int < 128
  }

  lemma AsciiAppend(a: string, b: string)
    ensures IsAscii(a + b) <==> IsAscii(a) && IsAscii(b)
  {
    if IsAscii(a + b) {
      assert forall k :: 0 <= k < |a| ==> a[k] == (a + b)[k];
      assert forall k :: 0 <= k < |b| ==> b[k] == (a + b)[|a| + k];
    }
  }

  predicate AllAscii(lines: seq<string>) {
    forall k :: 0 <= k < |lines| ==> IsAscii(lines[k])
  }

  lemma AllAsciiSlice(lines: seq<string>, i: nat, j: nat)
    requires AllAscii(lines) && i <= j <= |lines|
    ensures AllAscii(lines[i..j])
  {
    forall k | 0 <= k < j - i ensures IsAscii(lines[i..j][k]) {
      assert lines[i..j][k] == lines[i + k];
    }
  }

  lemma AllAsciiAppend(a: seq<string>, b: seq<string>)
    requires AllAscii(a) && AllAscii(b)
    ensures AllAscii(a + b)
  {
    forall k | 0 <= k < |a + b| ensures IsAscii((a + b)[k]) {
      if k < |a| {
        assert (a + b)[k] == a[k];
      } else {
        assert (a + b)[k] == b[k - |a|];
      }
    }
  }

  predicate IsAsciiBytes(b: seq<Byte>) {
    forall k :: 0 <= k < |b| ==> b[k] < 128
  }

  /** Python's `str.isspace()` for one character: the 29 white-space code points. */
  predicate IsSpace(c: char) {
    var n := c as int;
    n == 0x20 || 0x09 <= n <= 0x0D || 0x1C <= n <= 0x1F || n == 0x85 || n == 0xA0 ||
    n == 0x1680 || 0x2000 <= n <= 0x200A || n == 0x2028 || n == 0x2029 || n == 0x202F ||
    n == 0x205F || n == 0x3000
  }

  /** The line boundaries of `str.splitlines()`; "\r\n" counts as one boundary. */
  predicate IsLineBreak(c: char) {
    var n := c as int;
    0x0A <= n <= 0x0D || 0x1C <= n <= 0x1E || n == 0x85 || n == 0x2028 || n == 0x2029
  }

  predicate NoLineBreak(s: string) {
    forall k :: 0 <= k < |s| ==> !IsLineBreak(s[k])
  }

  predicate StartsWith(s: string, prefix: string) {
    |prefix| <= |s| && s[..|prefix|] == prefix
  }

  predicate EndsWith(s: string, suffix: string) {
    |suffix| <= |s| && s[|s| - |suffix|..] == suffix
  }

  // ---------------------------------------------------------------- strip

  function LStrip(s: string): (r: string)
    ensures |r| <= |s| && r == s[|s| - |r|..]
    ensures r == [] || !IsSpace(r[0])
    ensures forall k :: 0 <= k < |s| - |r| ==> IsSpace(s[k])
  {
    if s != [] && IsSpace(s[0]) then LStrip(s[1..]) else s
  }

  function RStrip(s: string): (r: string)
    ensures |r| <= |s| && r == s[..|r|]
    ensures r == [] || !IsSpace(r[|r| - 1])
    ensures forall k :: |r| <= k < |s| ==> IsSpace(s[k])
  {
    if s != [] && IsSpace(s[|s| - 1]) then RStrip(s[..|s| - 1]) else s
  }

  /** Number of white-space characters `str.strip()` removes from the front of `s`. */
  function StripStart(s: string): (i: nat)
    ensures i <= |s|
  {
    |s| - |LStrip(s)|
  }

  /**
   * `str.strip()`: the longest slice of `s` that neither starts nor ends with
   * white space; everything cut off on either side is white space.
   */
  function Strip(s: string): (r: string)
    ensures r == [] || (!IsSpace(r[0]) && !IsSpace(r[|r| - 1]))
    ensures StripStart(s) + |r| <= |s| && r == s[StripStart(s)..StripStart(s) + |r|]
    ensures forall k :: 0 <= k < StripStart(s) ==> IsSpace(s[k])
    ensures forall k :: StripStart(s) + |r| <= k < |s| ==> IsSpace(s[k])
  {
    RStrip(LStrip(s))
  }

  lemma StripKeepsChars(s: string, k: nat)
    requires k < |Strip(s)|
    ensures Strip(s)[k] in s
  {
    assert Strip(s)[k] == s[StripStart(s) + k];
  }

  /** Strip adds no character: one missing from `s` is missing from `s.strip()`. */
  lemma StripExcludes(s: string, c: char)
    ensures c !in s ==> c !in Strip(s)
  {
    if c in Strip(s) {
      var k :| 0 <= k < |Strip(s)| && Strip(s)[k] == c;
      StripKeepsChars(s, k);
    }
  }

  lemma StripAscii(s: string)
    ensures IsAscii(s) ==> IsAscii(Strip(s))
  {
    var r := Strip(s);
    forall k | 0 <= k < |r| && IsAscii(s) ensures r[k] as int < 128 {
      StripKeepsChars(s, k);
    }
  }

  lemma StripNoLineBreak(s: string)
    ensures NoLineBreak(s) ==> NoLineBreak(Strip(s))
  {
    var r := Strip(s);
    forall k | 0 <= k < |r| && NoLineBreak(s) ensures !IsLineBreak(r[k]) {
      StripKeepsChars(s, k);
    }
  }

  /** `s.strip()` is empty exactly when every character of `s` is white space. */
  lemma StripEmptyIff(s: string)
    ensures Strip(s) == [] <==> forall k :: 0 <= k < |s| ==> IsSpace(s[k])
  {
    var r := Strip(s);
    if r != [] {
      assert s[StripStart(s)] == r[0];
    }
  }

  /** Leading white space is removed by strip. */
  lemma StripLeadingSpace(c: char, s: string)
    requires IsSpace(c)
    ensures Strip([c] + s) == Strip(s)
  {
    assert ([c] + s)[1..] == s;
  }

  /** Any run of white space in front of a string with non-space ends is what strip removes. */
  lemma {:induction false} StripIndent(w: string, s: string)
    requires forall k :: 0 <= k < |w| ==> IsSpace(w[k])
    requires s != [] && !IsSpace(s[0]) && !IsSpace(s[|s| - 1])
    ensures Strip(w + s) == s
  {
    if w == [] {
      assert w + s == s;
      StripUnchanged(s);
    } else {
      assert w + s == [w[0]] + (w[1..] + s);
      StripLeadingSpace(w[0], w[1..] + s);
      StripIndent(w[1..], s);
    }
  }

  /** A string with no white space at either end is its own strip. */
  lemma StripUnchanged(s: string)
    requires s == [] || (!IsSpace(s[0]) && !IsSpace(s[|s| - 1]))
    ensures Strip(s) == s
  {
    var r, i := Strip(s), StripStart(s);
    if s != [] {
      assert i == 0;
      assert i + |r| == |s|;
    }
  }

  lemma StripIdempotent(s: string)
    ensures Strip(Strip(s)) == Strip(s)
  {
    StripUnchanged(Strip(s));
  }

  lemma {:induction false} RStripTrailingSpace(x: string, w: string)
    requires x != [] && !IsSpace(x[|x| - 1])
    requires forall k :: 0 <= k < |w| ==> IsSpace(w[k])
    ensures RStrip(x + w) == x
  {
    if w != [] {
      assert (x + w)[..|x + w| - 1] == x + w[..|w| - 1];
      RStripTrailingSpace(x, w[..|w| - 1]);
    } else {
      assert x + w == x;
    }
  }

  /** White space appended to a string with non-space ends is what strip removes. */
  lemma StripTrailingSpace(x: string, w: string)
    requires x != [] && !IsSpace(x[0]) && !IsSpace(x[|x| - 1])
    requires forall k :: 0 <= k < |w| ==> IsSpace(w[k])
    ensures Strip(x + w) == x
  {
    assert (x + w)[0] == x[0];
    assert LStrip(x + w) == x + w;
    RStripTrailingSpace(x, w);
  }

  /** A stripped string can never end in "\r\n": both characters are white space. */
  lemma StrippedNotCrLf(s: string)
    ensures !EndsWith(Strip(s), "\r\n")
  {
  }

  // ----------------------------------------------------------- splitlines

  /** Index of the first line boundary of `s`, or `|s|` when there is none. */
  function LineEnd(s: string): (i: nat)
    ensures i <= |s|
    ensures forall k :: 0 <= k < i ==> !IsLineBreak(s[k])
    ensures i < |s| ==> IsLineBreak(s[i])
  {
    if s == [] || IsLineBreak(s[0]) then 0 else 1 + LineEnd(s[1..])
  }

  /** Width of the boundary that starts at `s[i]`: "\r\n" is one boundary of two characters. */
  function BreakWidth(s: string, i: nat): nat
    requires i < |s|
  {
    if s[i] == '\r' && i + 1 < |s| && s[i + 1] == '\n' then 2 else 1
  }

  /**
   * `str.splitlines()`: the lines of `s` without their boundaries; a final
   * boundary does not open an empty last line, and "" has no lines.
   */
  function SplitLines(s: string): (lines: seq<string>)
    ensures forall k :: 0 <= k < |lines| ==> NoLineBreak(lines[k])
    ensures forall k, j :: 0 <= k < |lines| && 0 <= j < |lines[k]| ==> lines[k][j] in s
    decreases |s|
  {
    if s == [] then []
    else
      var i := LineEnd(s);
      if i == |s| then [s]
      else
        var rest := s[i + BreakWidth(s, i)..];
        assert forall c :: c in rest ==> c in s;
        [s[..i]] + SplitLines(rest)
  }

  lemma SplitLinesAscii(s: string)
    requires IsAscii(s)
    ensures AllAscii(SplitLines(s))
  {
    var lines := SplitLines(s);
    forall k, j | 0 <= k < |lines| && 0 <= j < |lines[k]| ensures lines[k][j] as int < 128 {
      assert lines[k][j] in s;
    }
  }

  /** The text made of each line followed by "\r\n". */
  function JoinCrLf(lines: seq<string>): string {
    if lines == [] then "" else lines[0] + "\r\n" + JoinCrLf(lines[1..])
  }

  lemma {:induction false} LineEndBefore(l: string, t: string)
    requires NoLineBreak(l)
    requires t != [] && IsLineBreak(t[0])
    ensures LineEnd(l + t) == |l|
  {
    if l != [] {
      assert (l + t)[1..] == l[1..] + t;
      LineEndBefore(l[1..], t);
    }
  }

  /** Lines without boundaries, each terminated by "\r\n", split back into themselves. */
  lemma {:induction false} SplitJoinCrLf(lines: seq<string>)
    requires forall k :: 0 <= k < |lines| ==> NoLineBreak(lines[k])
    ensures SplitLines(JoinCrLf(lines)) == lines
  {
    if lines != [] {
      var l := lines[0];
      var rest := JoinCrLf(lines[1..]);
      var s := JoinCrLf(lines);
      assert s == l + ("\r\n" + rest);
      LineEndBefore(l, "\r\n" + rest);
      assert s[|l|] == '\r' && s[|l| + 1] == '\n';
      assert BreakWidth(s, |l|) == 2;
      assert s[..|l|] == l;
      assert s[|l| + 2..] == rest;
      SplitJoinCrLf(lines[1..]);
      assert lines == [l] + lines[1..];
    }
  }

  // ---------------------------------------------------------- ascii codec

  /** `s.encode("ascii", errors="ignore")`: the code of every ASCII character, others dropped. */
  function EncodeAsciiIgnore(s: string): (b: seq<Byte>)
    ensures IsAsciiBytes(b)
    ensures |b| <= |s|
  {
    if s == [] then []
    else (if s[0] as int < 128 then [s[0] as int] else []) + EncodeAsciiIgnore(s[1..])
  }

  /** `s.encode("ascii")`: the character codes, or UnicodeEncodeError on any non-ASCII character. */
  function EncodeAscii(s: string): (r: Result<seq<Byte>, EncodeError>)
    ensures r.Ok? <==> IsAscii(s)
  {
    if IsAscii(s) then Ok(EncodeAsciiIgnore(s)) else Err(UnicodeEncodeError)
  }

  /** `b.decode("ascii", errors="ignore")`: every byte below 128 as a character, others dropped. */
  function DecodeAsciiIgnore(b: seq<Byte>): (s: string)
    ensures IsAscii(s)
    ensures |s| <= |b|
  {
    if b == [] then ""
    else (if b[0] < 128 then [b[0] as char] else "") + DecodeAsciiIgnore(b[1..])
  }

  /** On ASCII text the lossy encoder keeps every character, one byte each. */
  lemma {:induction false} EncodeAsciiExact(s: string)
    requires IsAscii(s)
    ensures |EncodeAsciiIgnore(s)| == |s|
    ensures forall k :: 0 <= k < |s| ==> EncodeAsciiIgnore(s)[k] == s[k] as int
  {
    if s != [] {
      EncodeAsciiExact(s[1..]);
      var e := EncodeAsciiIgnore(s);
      assert e == [s[0] as int] + EncodeAsciiIgnore(s[1..]);
      forall k | 0 <= k < |s| ensures e[k] == s[k] as int {
        if k > 0 { assert e[k] == EncodeAsciiIgnore(s[1..])[k - 1]; }
      }
    }
  }

  /** The lossy encoder drops a non-ASCII character wherever it stands. */
  lemma EncodeDropsNonAscii(a: string, c: char, z: string)
    requires c as int >= 128
    ensures EncodeAsciiIgnore(a + [c] + z) == EncodeAsciiIgnore(a + z)
  {
    EncodeAppend(a + [c], z);
    EncodeAppend(a, [c]);
    EncodeAppend(a, z);
    assert EncodeAsciiIgnore([c]) == [];
  }

  /** On ASCII bytes the lossy decoder keeps every byte, one character each. */
  lemma {:induction false} DecodeAsciiExact(b: seq<Byte>)
    requires IsAsciiBytes(b)
    ensures |DecodeAsciiIgnore(b)| == |b|
    ensures forall k :: 0 <= k < |b| ==> DecodeAsciiIgnore(b)[k] == b[k] as char
  {
    if b != [] {
      DecodeAsciiExact(b[1..]);
      var d := DecodeAsciiIgnore(b);
      assert d == [b[0] as char] + DecodeAsciiIgnore(b[1..]);
      forall k | 0 <= k < |b| ensures d[k] == b[k] as char {
        if k > 0 { assert d[k] == DecodeAsciiIgnore(b[1..])[k - 1]; }
      }
    }
  }

  /** The lossy decoder drops a byte of 128 or more wherever it stands. */
  lemma DecodeDropsHigh(a: seq<Byte>, x: Byte, z: seq<Byte>)
    requires x >= 128
    ensures DecodeAsciiIgnore(a + [x] + z) == DecodeAsciiIgnore(a + z)
  {
    DecodeAppend(a + [x], z);
    DecodeAppend(a, [x]);
    DecodeAppend(a, z);
    assert DecodeAsciiIgnore([x]) == "";
  }

  lemma {:induction false} EncodeAppend(a: string, b: string)
    ensures EncodeAsciiIgnore(a + b) == EncodeAsciiIgnore(a) + EncodeAsciiIgnore(b)
  {
    if a != [] {
      assert (a + b)[1..] == a[1..] + b;
      EncodeAppend(a[1..], b);
    } else {
      assert a + b == b;
    }
  }

  lemma {:induction false} DecodeAppend(a: seq<Byte>, b: seq<Byte>)
    ensures DecodeAsciiIgnore(a + b) == DecodeAsciiIgnore(a) + DecodeAsciiIgnore(b)
  {
    if a != [] {
      assert (a + b)[1..] == a[1..] + b;
      DecodeAppend(a[1..], b);
    } else {
      assert a + b == b;
    }
  }

  /** Decoding what was encoded gives back ASCII text unchanged. */
  lemma {:induction false} DecodeEncode(s: string)
    requires IsAscii(s)
    ensures DecodeAsciiIgnore(EncodeAsciiIgnore(s)) == s
  {
    if s != [] {
      DecodeEncode(s[1..]);
      assert EncodeAsciiIgnore(s) == [s[0] as int] + EncodeAsciiIgnore(s[1..]);
      DecodeAppend([s[0] as int], EncodeAsciiIgnore(s[1..]));
      assert DecodeAsciiIgnore([s[0] as int]) == [s[0]];
    }
  }

  /** Encoding what was decoded gives back bytes that were all ASCII. */
  lemma {:induction false} EncodeDecode(b: seq<Byte>)
    requires IsAsciiBytes(b)
    ensures EncodeAsciiIgnore(DecodeAsciiIgnore(b)) == b
  {
    if b != [] {
      EncodeDecode(b[1..]);
      assert DecodeAsciiIgnore(b) == [b[0] as char] + DecodeAsciiIgnore(b[1..]);
      EncodeAppend([b[0] as char], DecodeAsciiIgnore(b[1..]));
      assert EncodeAsciiIgnore([b[0] as char]) == [b[0]];
    }
  }
}
