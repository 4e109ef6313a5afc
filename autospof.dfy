/**
 * The UDP forwarder of autospof.py: `normalize_nmea`, which turns one text
 * line into a sentence to send, and the per-datagram step of the
 * `forward_from_udp` loop, which drops self-echo, decodes, splits into
 * lines, filters VTG and sends every non-empty normalised line in order.
 * Sockets are left out: a datagram is its bytes and its source address, and
 * the relay's own address (`get_local_ip_for`) is a parameter.
 */
module Autospof {
  import opened PyStr
  import opened Nmea

  // ------------------------------------------------------- normalize_nmea

  /**
   * `normalize_nmea(line)`: empty for a blank line; a stripped line starting
   * with "$" passes through with "\r\n" appended (its checksum is neither
   * checked nor recomputed, and non-ASCII characters are dropped); any other
   * stripped line is framed by `make_nmea`, whose strict ASCII encoding fails
   * on a non-ASCII body.
   */
  function Normalize(line: string): (r: Result<seq<Byte>, EncodeError>)
    ensures r.Err? <==> Strip(line) != [] && Strip(line)[0] != '$' && !IsAscii(Strip(line))
    ensures r == Ok([]) <==> Strip(line) == []
    ensures IsAscii(line) ==> r.Ok?
  {
    var s := Strip(line);
    StripAscii(line);
    DollarPrefix(s);
    if s == [] then Ok([])
    else if StartsWith(s, "$") then
      var t := if EndsWith(s, "\r\n") then s else s + "\r\n";
      CrLfEndEncoded(t);
      Ok(EncodeAsciiIgnore(t))
    else
      MakeNmea(s)
  }

  lemma DollarPrefix(s: string)
    ensures s != [] ==> (StartsWith(s, "$") <==> s[0] == '$')
  {
    if s != [] {
      assert s[..1] == [s[0]];
    }
  }

  /** Text ending in "\r\n" never encodes to nothing. */
  lemma CrLfEndEncoded(t: string)
    requires EndsWith(t, "\r\n")
    ensures EncodeAsciiIgnore(t) != []
  {
    var n := |t| - 2;
    assert t == t[..n] + "\r\n";
    EncodeAppend(t[..n], "\r\n");
    assert EncodeAsciiIgnore("\r\n")[0] == 13;
  }

  /**
   * A stripped line starting with "$" is sent as that line plus "\r\n": the
   * `endswith("\r\n")` test after `strip()` never holds.
   */
  lemma NormalizePassThrough(line: string)
    requires Strip(line) != [] && Strip(line)[0] == '$'
    ensures Normalize(line) == Ok(EncodeAsciiIgnore(Strip(line) + "\r\n"))
  {
    StrippedNotCrLf(line);
  }

  /** Any other non-blank line is framed after stripping, exactly as `make_nmea` frames it. */
  lemma NormalizeBareBody(line: string)
    requires Strip(line) != [] && Strip(line)[0] != '$'
    ensures Normalize(line) == MakeNmea(Strip(line))
  {
  }

  /** The text of a message without its final "\r\n". */
  function Core(m: seq<Byte>): string {
    var t := DecodeAsciiIgnore(m);
    if |t| >= 2 then t[..|t| - 2] else t
  }

  /** Text of a frame: ASCII, "$", text with no white space at its end, then "\r\n". */
  predicate IsFrameText(t: string) {
    IsAscii(t) && |t| >= 3 && t[0] == '$' && EndsWith(t, "\r\n") && !IsSpace(t[|t| - 3])
  }

  /** What the relay sends: the ASCII bytes of a frame text. */
  predicate IsFrame(m: seq<Byte>) {
    IsAsciiBytes(m) && IsFrameText(DecodeAsciiIgnore(m))
  }

  /** A frame, as bytes, starts with '$' and ends with CR LF. */
  lemma FrameBytes(m: seq<Byte>)
    requires IsFrame(m)
    ensures |m| >= 3 && m[0] == '$' as int && m[|m| - 2] == '\r' as int && m[|m| - 1] == '\n' as int
  {
    var t := DecodeAsciiIgnore(m);
    EncodeDecode(m);
    EncodeAsciiExact(t);
    assert t[|t| - 2..][0] == t[|t| - 2] && t[|t| - 2..][1] == t[|t| - 1];
  }

  lemma EncodeFrameText(t: string)
    requires IsFrameText(t)
    ensures IsFrame(EncodeAsciiIgnore(t)) && Core(EncodeAsciiIgnore(t)) == t[..|t| - 2]
  {
    DecodeEncode(t);
  }

  /** The pass-through text of a stripped "$" line is a frame text. */
  lemma PassThroughText(s: string)
    requires IsAscii(s) && s != [] && s[0] == '$' && !IsSpace(s[|s| - 1])
    ensures IsFrameText(s + "\r\n") && (s + "\r\n")[..|s|] == s
  {
    var t := s + "\r\n";
    AsciiAppend(s, "\r\n");
    assert t[|t| - 3] == s[|s| - 1];
    assert t[|t| - 2..] == "\r\n";
  }

  /** The text `make_nmea` builds for an ASCII body is a frame text. */
  lemma BareText(s: string)
    requires IsAscii(s)
    ensures IsFrameText(FrameText(s))
    ensures NoLineBreak(s) ==> NoLineBreak(FrameText(s)[..|FrameText(s)| - 2])
  {
    var t, cs := FrameText(s), Checksum(s);
    FrameTextAscii(s);
    assert t[|t| - 3] == cs[|cs| - 1];
    assert IsUpperHex(cs[|cs| - 1]);
    assert t[|t| - 2..] == "\r\n";
    if NoLineBreak(s) {
      forall k | 0 <= k < |t| - 2 ensures !IsLineBreak(t[k]) {
        if 1 <= k <= |s| {
          assert t[k] == s[k - 1];
        } else if k > |s| + 1 {
          assert t[k] == cs[k - |s| - 2];
        }
      }
    }
  }

  lemma PassThroughFrame(s: string)
    requires IsAscii(s) && s != [] && s[0] == '$' && !IsSpace(s[|s| - 1])
    ensures IsFrame(EncodeAsciiIgnore(s + "\r\n")) && Core(EncodeAsciiIgnore(s + "\r\n")) == s
  {
    PassThroughText(s);
    EncodeFrameText(s + "\r\n");
  }

  lemma BareFrame(s: string)
    requires IsAscii(s)
    ensures MakeNmea(s) == Ok(EncodeAsciiIgnore(FrameText(s)))
    ensures IsFrame(MakeNmea(s).value)
    ensures NoLineBreak(s) ==> NoLineBreak(Core(MakeNmea(s).value))
  {
    FrameTextAscii(s);
    BareText(s);
    EncodeFrameText(FrameText(s));
  }

  /**
   * Every non-empty result for an ASCII line is a frame, and a line without
   * line boundaries gives a frame whose text has none either.
   */
  lemma NormalizeGivesFrame(line: string)
    requires IsAscii(line) && Strip(line) != []
    ensures Normalize(line).Ok? && Normalize(line).value != []
    ensures IsFrame(Normalize(line).value)
    ensures NoLineBreak(line) ==> NoLineBreak(Core(Normalize(line).value))
  {
    var s := Strip(line);
    StripAscii(line);
    StripNoLineBreak(line);
    if s[0] == '$' {
      NormalizePassThrough(line);
      PassThroughFrame(s);
    } else {
      NormalizeBareBody(line);
      BareFrame(s);
    }
    FrameBytes(Normalize(line).value);
  }

  /** A frame normalises to itself, with or without its final "\r\n". */
  lemma FrameIsFixedPoint(m: seq<Byte>)
    requires IsFrame(m)
    ensures Normalize(DecodeAsciiIgnore(m)) == Ok(m)
    ensures Normalize(Core(m)) == Ok(m)
  {
    var t := DecodeAsciiIgnore(m);
    var x := Core(m);
    assert t == x + "\r\n";
    assert x[0] == '$' && x[|x| - 1] == t[|t| - 3];
    StripTrailingSpace(x, "\r\n");
    StripTrailingSpace(x, "");
    assert x + "" == x;
    NormalizePassThrough(t);
    NormalizePassThrough(x);
    EncodeDecode(m);
  }

  /** `normalize_nmea` is idempotent on its own output. */
  lemma NormalizeIdempotent(line: string)
    requires IsAscii(line)
    ensures Normalize(DecodeAsciiIgnore(Normalize(line).value)) == Normalize(line)
  {
    if Strip(line) == [] {
      assert DecodeAsciiIgnore([]) == "";
      assert Strip("") == "";
    } else {
      NormalizeGivesFrame(line);
      FrameIsFixedPoint(Normalize(line).value);
    }
  }

  // ----------------------------------------------------- forward_from_udp

  /** Source address of a received datagram, `addr = (host, port)`. */
  datatype Address = Address(host: string, port: int)

  /** Lines the loop passes over before normalising: empty ones, and "$GPVTG" ones when VTG is ignored. */
  predicate Skipped(raw: string, ignoreVtg: bool) {
    raw == [] || (ignoreVtg && StartsWith(raw, "$GPVTG"))
  }

  /** The messages sent for a run of lines, in order. */
  function RelayLines(lines: seq<string>, ignoreVtg: bool): (sent: seq<seq<Byte>>)
    requires AllAscii(lines)
    ensures |sent| <= |lines|
  {
    if lines == [] then []
    else
      var sent := RelayLines(lines[..|lines| - 1], ignoreVtg);
      var raw := lines[|lines| - 1];
      if Skipped(raw, ignoreVtg) then sent
      else
        var msg := Normalize(raw).value;
        if msg != [] then sent + [msg] else sent
  }

  /**
   * The messages one received datagram makes the relay send: none when it
   * comes from the relay's own address, otherwise those of its ASCII lines.
   */
  function RelayOutput(data: seq<Byte>, src: Address, localIp: string, ignoreVtg: bool): (sent: seq<seq<Byte>>)
    ensures |sent| <= |SplitLines(DecodeAsciiIgnore(data))|
    ensures forall k :: 0 <= k < |sent| ==> IsFrame(sent[k])
  {
    if src.host == localIp then []
    else
      SplitLinesAscii(DecodeAsciiIgnore(data));
      RelayLinesFrames(SplitLines(DecodeAsciiIgnore(data)), ignoreVtg);
      RelayLines(SplitLines(DecodeAsciiIgnore(data)), ignoreVtg)
  }

  /** The messages for one more line: those for the lines before it, then what that line yields. */
  lemma RelayLinesNext(lines: seq<string>, i: nat, ignoreVtg: bool)
    requires AllAscii(lines) && i < |lines|
    ensures AllAscii(lines[..i]) && AllAscii(lines[..i + 1])
    ensures RelayLines(lines[..i + 1], ignoreVtg) ==
      if Skipped(lines[i], ignoreVtg) || Normalize(lines[i]).value == [] then RelayLines(lines[..i], ignoreVtg)
      else RelayLines(lines[..i], ignoreVtg) + [Normalize(lines[i]).value]
  {
    AllAsciiSlice(lines, 0, i);
    AllAsciiSlice(lines, 0, i + 1);
    assert lines[..i] == lines[0..i] && lines[..i + 1] == lines[0..i + 1];
    assert lines[..i + 1][..i] == lines[..i];
  }

  /** The body of the receive loop for one datagram; the result is what `sendto` is called with, in order. */
  method ForwardDatagram(data: seq<Byte>, src: Address, localIp: string, ignoreVtg: bool)
    returns (sent: seq<seq<Byte>>)
    ensures sent == RelayOutput(data, src, localIp, ignoreVtg)
    ensures src.host == localIp ==> sent == []
  {
    sent := [];
    if src.host == localIp {
      return;
    }
    var text := DecodeAsciiIgnore(data);
    var lines := SplitLines(text);
    SplitLinesAscii(text);
    AllAsciiSlice(lines, 0, 0);
    for i := 0 to |lines|
      invariant AllAscii(lines[..i])
      invariant sent == RelayLines(lines[..i], ignoreVtg)
    {
      RelayLinesNext(lines, i, ignoreVtg);
      var raw := lines[i];
      if raw == [] {
        continue;
      }
      if ignoreVtg && StartsWith(raw, "$GPVTG") {
        continue;
      }
      var msg := Normalize(raw);
      if msg.value != [] {
        sent := sent + [msg.value];
      }
    }
    assert lines[..|lines|] == lines;
  }

  /** Lines are handled one at a time: the messages for a concatenation are the concatenated messages. */
  lemma {:induction false} RelayLinesAppend(a: seq<string>, b: seq<string>, ignoreVtg: bool)
    requires AllAscii(a) && AllAscii(b)
    ensures RelayLines(a + b, ignoreVtg) == RelayLines(a, ignoreVtg) + RelayLines(b, ignoreVtg)
  {
    if b == [] {
      assert a + b == a;
    } else {
      assert (a + b)[..|a + b| - 1] == a + b[..|b| - 1];
      assert (a + b)[|a + b| - 1] == b[|b| - 1];
      RelayLinesAppend(a, b[..|b| - 1], ignoreVtg);
    }
  }

  /** One line yields one message, its normal form, unless it is skipped or blank. */
  lemma RelayLinesOne(raw: string, ignoreVtg: bool)
    requires IsAscii(raw)
    ensures RelayLines([raw], ignoreVtg) ==
      if Skipped(raw, ignoreVtg) || Strip(raw) == [] then [] else [Normalize(raw).value]
  {
    assert [raw][..0] == [];
  }

  /** Everything the relay sends is a frame. */
  lemma {:induction false} RelayLinesFrames(lines: seq<string>, ignoreVtg: bool)
    requires AllAscii(lines)
    ensures forall k :: 0 <= k < |RelayLines(lines, ignoreVtg)| ==> IsFrame(RelayLines(lines, ignoreVtg)[k])
  {
    if lines != [] {
      var init, raw := lines[..|lines| - 1], lines[|lines| - 1];
      RelayLinesFrames(init, ignoreVtg);
      var prev := RelayLines(init, ignoreVtg);
      if Skipped(raw, ignoreVtg) || Strip(raw) == [] {
        assert RelayLines(lines, ignoreVtg) == prev;
      } else {
        NormalizeGivesFrame(raw);
        assert RelayLines(lines, ignoreVtg) == prev + [Normalize(raw).value];
      }
    }
  }

  /** With VTG ignored, a line starting "$GPVTG" contributes nothing wherever it stands. */
  lemma VtgLineDropped(lines: seq<string>, k: nat)
    requires AllAscii(lines)
    requires k < |lines| && StartsWith(lines[k], "$GPVTG")
    ensures RelayLines(lines, true) == RelayLines(lines[..k] + lines[k + 1..], true)
  {
    var pre, l, post := lines[..k], lines[k], lines[k + 1..];
    AllAsciiSlice(lines, 0, k);
    AllAsciiSlice(lines, k + 1, |lines|);
    SplitAround(lines, k);
    SkippedLineDropped(pre, l, post, true);
  }

  lemma SplitAround(lines: seq<string>, k: nat)
    requires k < |lines|
    ensures lines[..k] == lines[0..k] && lines[k + 1..] == lines[k + 1..|lines|]
    ensures lines == lines[..k] + [lines[k]] + lines[k + 1..]
  {
  }

  /** A line either `continue` skips contributes nothing, wherever it stands. */
  lemma SkippedLineDropped(pre: seq<string>, l: string, post: seq<string>, ignoreVtg: bool)
    requires AllAscii(pre) && IsAscii(l) && AllAscii(post) && Skipped(l, ignoreVtg)
    ensures AllAscii(pre + [l] + post) && AllAscii(pre + post)
    ensures RelayLines(pre + [l] + post, ignoreVtg) == RelayLines(pre + post, ignoreVtg)
  {
    assert AllAscii([l]) by {
      assert [l][0] == l;
    }
    AllAsciiAppend(pre, [l]);
    AllAsciiAppend(pre + [l], post);
    AllAsciiAppend(pre, post);
    RelayLinesAppend(pre + [l], post, ignoreVtg);
    assert (pre + [l])[..|pre|] == pre;
    assert RelayLines(pre + [l], ignoreVtg) == RelayLines(pre, ignoreVtg);
    RelayLinesAppend(pre, post, ignoreVtg);
  }

  /**
   * The filter looks at the raw line only: a bare "GPVTG,..." body is framed
   * and forwarded even with VTG ignored.
   */
  lemma BareVtgForwarded(body: string)
    requires IsAscii(body) && StartsWith(body, "GPVTG") && !IsSpace(body[|body| - 1])
    ensures RelayLines([body], true) == [MakeNmea(body).value]
  {
    assert body[0] == 'G' by {
      assert body[..5][0] == body[0];
    }
    assert !Skipped(body, true) by {
      if |body| >= 6 {
        assert body[..6][0] == body[0];
      }
    }
    StripUnchanged(body);
    RelayLinesOne(body, true);
    NormalizeBareBody(body);
  }

  /** ...and so is a "$GPVTG" sentence preceded by any white space, which strip then removes. */
  lemma IndentedVtgForwarded(indent: string, sentence: string)
    requires indent != [] && IsAscii(indent) && forall k :: 0 <= k < |indent| ==> IsSpace(indent[k])
    requires IsAscii(sentence) && StartsWith(sentence, "$GPVTG") && !IsSpace(sentence[|sentence| - 1])
    ensures RelayLines([indent + sentence], true) == [EncodeAsciiIgnore(sentence + "\r\n")]
  {
    IndentStripped(indent, sentence);
    RelayLinesOne(indent + sentence, true);
    NormalizePassThrough(indent + sentence);
  }

  lemma IndentStripped(indent: string, sentence: string)
    requires indent != [] && IsAscii(indent) && forall k :: 0 <= k < |indent| ==> IsSpace(indent[k])
    requires IsAscii(sentence) && StartsWith(sentence, "$GPVTG") && !IsSpace(sentence[|sentence| - 1])
    ensures IsAscii(indent + sentence) && !Skipped(indent + sentence, true)
    ensures Strip(indent + sentence) == sentence && sentence[0] == '$'
  {
    AsciiAppend(indent, sentence);
    IndentNotVtg(indent, sentence);
    assert sentence[0] == sentence[..6][0];
    StripIndent(indent, sentence);
  }

  /** A line starting with white space does not start with "$GPVTG". */
  lemma IndentNotVtg(indent: string, s: string)
    requires indent != [] && IsSpace(indent[0])
    ensures !StartsWith(indent + s, "$GPVTG")
  {
    if |indent + s| >= 6 {
      assert (indent + s)[..6][0] == indent[0];
    }
  }

  /** The bytes of several messages sent back to back. */
  function Flatten(msgs: seq<seq<Byte>>): seq<Byte> {
    if msgs == [] then [] else msgs[0] + Flatten(msgs[1..])
  }

  /** The lines the messages carry, one per message, each without its CR LF. */
  function Cores(msgs: seq<seq<Byte>>): (lines: seq<string>)
    ensures |lines| == |msgs|
  {
    if msgs == [] then [] else [Core(msgs[0])] + Cores(msgs[1..])
  }

  predicate SingleLineFrame(m: seq<Byte>) {
    IsFrame(m) && NoLineBreak(Core(m))
  }

  predicate AllSingleLineFrames(msgs: seq<seq<Byte>>) {
    forall k :: 0 <= k < |msgs| ==> SingleLineFrame(msgs[k])
  }

  lemma {:induction false} DecodeFlatten(msgs: seq<seq<Byte>>)
    requires AllSingleLineFrames(msgs)
    ensures DecodeAsciiIgnore(Flatten(msgs)) == JoinCrLf(Cores(msgs))
    ensures forall k :: 0 <= k < |msgs| ==> NoLineBreak(Cores(msgs)[k])
  {
    if msgs != [] {
      var m, rest := msgs[0], msgs[1..];
      assert AllSingleLineFrames(rest);
      DecodeFlatten(rest);
      DecodeAppend(m, Flatten(rest));
      var t := DecodeAsciiIgnore(m);
      assert t == Core(m) + "\r\n";
      assert Cores(msgs) == [Core(m)] + Cores(rest);
    }
  }

  /** The core of a frame is an ASCII "$" line that normalises back to the frame. */
  lemma CoreLine(m: seq<Byte>)
    requires IsFrame(m)
    ensures IsAscii(Core(m)) && Core(m) != [] && Core(m)[0] == '$'
    ensures Strip(Core(m)) != [] && Normalize(Core(m)) == Ok(m)
  {
    var t := DecodeAsciiIgnore(m);
    var x := Core(m);
    assert x == t[..|t| - 2];
    assert IsAscii(x) by {
      forall k | 0 <= k < |x| ensures x[k] as int < 128 {
        assert x[k] == t[k];
      }
    }
    FrameBytes(m);
    FrameIsFixedPoint(m);
  }

  /** The core of a frame is a line the relay turns back into that frame. */
  lemma RelayCore(m: seq<Byte>, ignoreVtg: bool)
    requires IsFrame(m)
    requires ignoreVtg ==> !StartsWith(Core(m), "$GPVTG")
    ensures IsAscii(Core(m)) && RelayLines([Core(m)], ignoreVtg) == [m]
  {
    CoreLine(m);
    RelayLinesOne(Core(m), ignoreVtg);
  }

  /** With VTG ignored, none of the messages is a "$GPVTG" sentence. */
  predicate NoVtgCores(msgs: seq<seq<Byte>>, ignoreVtg: bool) {
    ignoreVtg ==> forall k :: 0 <= k < |msgs| ==> !StartsWith(Core(msgs[k]), "$GPVTG")
  }

  lemma RelayConsLine(x: string, lines: seq<string>, m: seq<Byte>, msgs: seq<seq<Byte>>, ignoreVtg: bool)
    requires IsAscii(x) && AllAscii(lines)
    requires RelayLines([x], ignoreVtg) == [m] && RelayLines(lines, ignoreVtg) == msgs
    ensures AllAscii([x] + lines) && RelayLines([x] + lines, ignoreVtg) == [m] + msgs
  {
    assert AllAscii([x]) by {
      assert [x][0] == x;
    }
    AllAsciiAppend([x], lines);
    RelayLinesAppend([x], lines, ignoreVtg);
  }

  lemma {:induction false} RelayCores(msgs: seq<seq<Byte>>, ignoreVtg: bool)
    requires AllSingleLineFrames(msgs) && NoVtgCores(msgs, ignoreVtg)
    ensures AllAscii(Cores(msgs))
    ensures RelayLines(Cores(msgs), ignoreVtg) == msgs
  {
    if msgs != [] {
      FramesTail(msgs, ignoreVtg);
      RelayCores(msgs[1..], ignoreVtg);
      CoresCons(msgs);
      RelayCoreCons(msgs[0], msgs[1..], Cores(msgs), Cores(msgs[1..]), ignoreVtg);
      assert msgs == [msgs[0]] + msgs[1..];
    }
  }

  /** One frame in front of lines the relay turns back into `rest`. */
  lemma RelayCoreCons(m: seq<Byte>, rest: seq<seq<Byte>>, lines: seq<string>, tail: seq<string>, ignoreVtg: bool)
    requires IsFrame(m) && (ignoreVtg ==> !StartsWith(Core(m), "$GPVTG"))
    requires AllAscii(tail) && RelayLines(tail, ignoreVtg) == rest && lines == [Core(m)] + tail
    ensures AllAscii(lines) && RelayLines(lines, ignoreVtg) == [m] + rest
  {
    RelayCore(m, ignoreVtg);
    RelayConsLine(Core(m), tail, m, rest, ignoreVtg);
  }

  lemma FramesTail(msgs: seq<seq<Byte>>, ignoreVtg: bool)
    requires msgs != [] && AllSingleLineFrames(msgs) && NoVtgCores(msgs, ignoreVtg)
    ensures AllSingleLineFrames(msgs[1..]) && NoVtgCores(msgs[1..], ignoreVtg) && SingleLineFrame(msgs[0])
    ensures ignoreVtg ==> !StartsWith(Core(msgs[0]), "$GPVTG")
  {
    assert forall k :: 0 <= k < |msgs[1..]| ==> msgs[1..][k] == msgs[k + 1];
  }

  lemma CoresCons(msgs: seq<seq<Byte>>)
    requires msgs != []
    ensures Cores(msgs) == [Core(msgs[0])] + Cores(msgs[1..])
  {
  }

  /** Lines without line boundaries give messages whose text has none either. */
  lemma {:induction false} RelayLinesSingleLine(lines: seq<string>, ignoreVtg: bool)
    requires AllAscii(lines) && forall k :: 0 <= k < |lines| ==> NoLineBreak(lines[k])
    ensures AllSingleLineFrames(RelayLines(lines, ignoreVtg))
  {
    if lines != [] {
      var init, raw := lines[..|lines| - 1], lines[|lines| - 1];
      RelayLinesSingleLine(init, ignoreVtg);
      var prev := RelayLines(init, ignoreVtg);
      if Skipped(raw, ignoreVtg) || Strip(raw) == [] {
        assert RelayLines(lines, ignoreVtg) == prev;
      } else {
        NormalizeGivesFrame(raw);
        assert RelayLines(lines, ignoreVtg) == prev + [Normalize(raw).value];
      }
    }
  }

  /** Every message of a datagram is a frame on one line. */
  lemma RelayOutputFrames(data: seq<Byte>, src: Address, localIp: string, ignoreVtg: bool)
    ensures AllSingleLineFrames(RelayOutput(data, src, localIp, ignoreVtg))
  {
    if src.host != localIp {
      SplitLinesAscii(DecodeAsciiIgnore(data));
      RelayLinesSingleLine(SplitLines(DecodeAsciiIgnore(data)), ignoreVtg);
    }
  }

  /**
   * Relaying is idempotent: a datagram made of messages the relay sent,
   * coming from another host, makes it send exactly those messages again
   * (with VTG ignored, provided none of them is a "$GPVTG" sentence).
   */
  lemma RelayIdempotent(data: seq<Byte>, src: Address, src2: Address, localIp: string, ignoreVtg: bool)
    requires src2.host != localIp
    requires NoVtgCores(RelayOutput(data, src, localIp, ignoreVtg), ignoreVtg)
    ensures RelayOutput(Flatten(RelayOutput(data, src, localIp, ignoreVtg)), src2, localIp, ignoreVtg) ==
      RelayOutput(data, src, localIp, ignoreVtg)
  {
    var out := RelayOutput(data, src, localIp, ignoreVtg);
    RelayOutputFrames(data, src, localIp, ignoreVtg);
    DecodeFlatten(out);
    SplitJoinCrLf(Cores(out));
    RelayCores(out, ignoreVtg);
  }
}
