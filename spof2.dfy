/**
 * The three-sentence sender of spof2.py: each of the VTG, RMC and GGA bodies
 * is the user's stripped reply or a built-in default, the three messages are
 * framed once by the stripping `make_nmea`, and every round of the send loop
 * emits them in the order VTG, RMC, GGA. The prompts, the socket and the
 * sleep between rounds are left out; the endless loop is bounded by a
 * `rounds` parameter.
 */
module Spof2 {
  import opened PyStr
  import opened Nmea

  // Default sentence bodies, without "$" and without "*checksum". The longer
  // two are written in pieces of at most 19 characters, so that the
  // characters of each piece can be checked on their own.
  const DefaultVtg: string := "GPVTG,,T,,M,,N,,K,N"
  const DefaultRmc: string := "GPRMC,125602.3,A," + "3408.0,N,07752.0,W," + "5.0,090.0,181225," + "000.0,E,A"
  const DefaultGga: string := "GPGGA,125602.4," + "3408.0,N,07752.0,W," + "1,08,0.9,0.0,M," + "0.0,M,,"

  /**
   * `ask_sentence`: a non-blank reply, stripped, wins; a blank one selects the
   * default. A non-empty default means the body is never empty, and a default
   * with no white space at its ends means `make_nmea`'s own strip leaves the
   * chosen body as it is.
   */
  function AskSentence(reply: string, defaultBody: string): (body: string)
    ensures Strip(reply) != [] ==> body == Strip(reply)
    ensures Strip(reply) == [] ==> body == defaultBody
    ensures defaultBody != [] ==> body != []
    ensures Strip(defaultBody) == defaultBody ==> Strip(body) == body
  {
    var user := Strip(reply);
    StripIdempotent(reply);
    if user != [] then user else defaultBody
  }

  /** What gets sent for a chosen body is the plain frame of that body. */
  lemma AskSentenceFramed(reply: string, defaultBody: string)
    requires Strip(defaultBody) == defaultBody
    ensures MakeNmeaStripped(AskSentence(reply, defaultBody)) == MakeNmea(AskSentence(reply, defaultBody))
  {
  }

  /** ASCII text without "*". */
  predicate PlainText(b: string) {
    IsAscii(b) && '*' !in b
  }

  lemma PlainAppend(a: string, b: string)
    requires PlainText(a) && PlainText(b)
    ensures PlainText(a + b)
  {
    AsciiAppend(a, b);
  }

  /** A default body: plain text with nothing for strip to remove. */
  predicate PlainBody(b: string) {
    PlainText(b) && Strip(b) == b
  }

  /** A body that starts with "GP" and ends with a letter or a comma has nothing for strip to remove. */
  lemma GpBodyStripped(b: string)
    requires |b| >= 2 && b[0] == 'G' && (b[|b| - 1] == ',' || 'A' <= b[|b| - 1] <= 'Z')
    ensures Strip(b) == b
  {
    StripUnchanged(b);
  }

  /** The ends of a body written in four pieces are the ends of its first and last piece. */
  lemma PiecesEnds(a: string, b: string, c: string, d: string)
    requires a != [] && d != []
    ensures (a + b + c + d)[0] == a[0] && (a + b + c + d)[|a + b + c + d| - 1] == d[|d| - 1]
  {
  }

  lemma DefaultVtgPlain()
    ensures PlainBody(DefaultVtg)
  {
    assert DefaultVtg[0] == 'G' && DefaultVtg[|DefaultVtg| - 1] == 'N';
    GpBodyStripped(DefaultVtg);
  }

  lemma PiecesPlain(a: string, b: string, c: string, d: string)
    requires PlainText(a) && PlainText(b) && PlainText(c) && PlainText(d)
    ensures PlainText(a + b + c + d)
  {
    PlainAppend(a, b);
    PlainAppend(a + b, c);
    PlainAppend(a + b + c, d);
  }

  lemma RmcPiecesPlain()
    ensures PlainText("GPRMC,125602.3,A,") && PlainText("3408.0,N,07752.0,W,")
    ensures PlainText("5.0,090.0,181225,") && PlainText("000.0,E,A")
  {
    PositionPlain();
    assert PlainText("GPRMC,125602.3,A,");
    assert PlainText("5.0,090.0,181225,");
  }

  lemma GgaPiecesPlain()
    ensures PlainText("GPGGA,125602.4,") && PlainText("3408.0,N,07752.0,W,")
    ensures PlainText("1,08,0.9,0.0,M,") && PlainText("0.0,M,,")
  {
    PositionPlain();
    assert PlainText("GPGGA,125602.4,");
    assert PlainText("1,08,0.9,0.0,M,");
  }

  /** The position piece that the RMC and GGA defaults share. */
  lemma PositionPlain()
    ensures PlainText("3408.0,N,07752.0,W,")
  {
  }

  lemma DefaultRmcPlain()
    ensures PlainBody(DefaultRmc)
  {
    RmcPiecesPlain();
    PiecesPlain("GPRMC,125602.3,A,", "3408.0,N,07752.0,W,", "5.0,090.0,181225,", "000.0,E,A");
    PiecesEnds("GPRMC,125602.3,A,", "3408.0,N,07752.0,W,", "5.0,090.0,181225,", "000.0,E,A");
    GpBodyStripped(DefaultRmc);
  }

  lemma DefaultGgaPlain()
    ensures PlainBody(DefaultGga)
  {
    GgaPiecesPlain();
    PiecesPlain("GPGGA,125602.4,", "3408.0,N,07752.0,W,", "1,08,0.9,0.0,M,", "0.0,M,,");
    PiecesEnds("GPGGA,125602.4,", "3408.0,N,07752.0,W,", "1,08,0.9,0.0,M,", "0.0,M,,");
    GpBodyStripped(DefaultGga);
  }

  lemma DefaultsPlain()
    ensures PlainBody(DefaultVtg) && PlainBody(DefaultRmc) && PlainBody(DefaultGga)
  {
    DefaultVtgPlain();
    DefaultRmcPlain();
    DefaultGgaPlain();
  }

  /**
   * A plain body is framed with exactly one "*", right before its checksum,
   * and the frame validates back to the body.
   */
  lemma PlainBodyFrames(b: string)
    requires PlainBody(b)
    ensures MakeNmeaStripped(b).Ok?
    ensures DecodeAsciiIgnore(MakeNmeaStripped(b).value) == FrameText(b)
    ensures forall k :: 0 <= k < |FrameText(b)| ==> (FrameText(b)[k] == '*' <==> k == |b| + 1)
    ensures ParseSentence(FrameText(b)) == Ok(b)
  {
    FrameTextOneStar(b);
    MakeNmeaValidates(b);
  }

  /** The three defaults frame validly, with one "*" each. */
  lemma DefaultsFrame()
    ensures MakeNmeaStripped(DefaultVtg).Ok? &&
            ParseSentence(DecodeAsciiIgnore(MakeNmeaStripped(DefaultVtg).value)) == Ok(DefaultVtg)
    ensures MakeNmeaStripped(DefaultRmc).Ok? &&
            ParseSentence(DecodeAsciiIgnore(MakeNmeaStripped(DefaultRmc).value)) == Ok(DefaultRmc)
    ensures MakeNmeaStripped(DefaultGga).Ok? &&
            ParseSentence(DecodeAsciiIgnore(MakeNmeaStripped(DefaultGga).value)) == Ok(DefaultGga)
  {
    DefaultsPlain();
    PlainBodyFrames(DefaultVtg);
    PlainBodyFrames(DefaultRmc);
    PlainBodyFrames(DefaultGga);
  }

  /**
   * The messages built once before the loop, VTG first; the first body that
   * is not ASCII after stripping raises UnicodeEncodeError.
   */
  function BuildMessages(vtg: string, rmc: string, gga: string): (r: Result<seq<seq<Byte>>, EncodeError>)
    ensures r.Ok? <==> IsAscii(Strip(vtg)) && IsAscii(Strip(rmc)) && IsAscii(Strip(gga))
    ensures r.Ok? ==> |r.value| == 3
    ensures r.Ok? ==> IsAsciiBytes(r.value[0]) && IsAsciiBytes(r.value[1]) && IsAsciiBytes(r.value[2])
    ensures r.Ok? ==> DecodeAsciiIgnore(r.value[0]) == FrameText(Strip(vtg))
    ensures r.Ok? ==> DecodeAsciiIgnore(r.value[1]) == FrameText(Strip(rmc))
    ensures r.Ok? ==> DecodeAsciiIgnore(r.value[2]) == FrameText(Strip(gga))
  {
    var v, m, g := MakeNmeaStripped(vtg), MakeNmeaStripped(rmc), MakeNmeaStripped(gga);
    if v.Err? then Err(v.error)
    else if m.Err? then Err(m.error)
    else if g.Err? then Err(g.error)
    else Ok([v.value, m.value, g.value])
  }

  /** `sent` is the three messages over and over, the first one first. */
  predicate Cycles(sent: seq<seq<Byte>>, msgs: seq<seq<Byte>>)
    requires |msgs| == 3
  {
    forall k :: 0 <= k < |sent| ==> sent[k] == msgs[k % 3]
  }

  /** One more round keeps the cycle going. */
  lemma CyclesRound(sent: seq<seq<Byte>>, msgs: seq<seq<Byte>>)
    requires |msgs| == 3 && |sent| % 3 == 0 && Cycles(sent, msgs)
    ensures Cycles(sent + msgs, msgs)
  {
    var n := |sent|;
    forall k | 0 <= k < |sent + msgs| ensures (sent + msgs)[k] == msgs[k % 3] {
      if k >= n {
        assert (sent + msgs)[k] == msgs[k - n];
        assert k % 3 == k - n;
      }
    }
  }

  /**
   * `rounds` passes of the send loop: every message in turn, VTG, RMC, GGA,
   * again and again.
   */
  method Broadcast(msgs: seq<seq<Byte>>, rounds: nat) returns (sent: seq<seq<Byte>>)
    requires |msgs| == 3
    ensures |sent| == 3 * rounds
    ensures Cycles(sent, msgs)
  {
    sent := [];
    for r := 0 to rounds
      invariant |sent| == 3 * r
      invariant Cycles(sent, msgs)
    {
      CyclesRound(sent, msgs);
      sent := sent + [msgs[0], msgs[1], msgs[2]];
      assert [msgs[0], msgs[1], msgs[2]] == msgs;
    }
  }

  /** The messages built from the three defaults: `make_nmea` succeeds on each, and each validates to its default. */
  function DefaultMessages(): (msgs: seq<seq<Byte>>)
    ensures BuildMessages(DefaultVtg, DefaultRmc, DefaultGga) == Ok(msgs)
    ensures ParseSentence(DecodeAsciiIgnore(msgs[0])) == Ok(DefaultVtg)
    ensures ParseSentence(DecodeAsciiIgnore(msgs[1])) == Ok(DefaultRmc)
    ensures ParseSentence(DecodeAsciiIgnore(msgs[2])) == Ok(DefaultGga)
  {
    DefaultsPlain();
    BuildPlain(DefaultVtg, DefaultRmc, DefaultGga);
    BuildMessages(DefaultVtg, DefaultRmc, DefaultGga).value
  }

  /** Three plain bodies build three messages, each validating to its body. */
  lemma BuildPlain(vtg: string, rmc: string, gga: string)
    requires PlainBody(vtg) && PlainBody(rmc) && PlainBody(gga)
    ensures BuildMessages(vtg, rmc, gga).Ok?
    ensures ParseSentence(DecodeAsciiIgnore(BuildMessages(vtg, rmc, gga).value[0])) == Ok(vtg)
    ensures ParseSentence(DecodeAsciiIgnore(BuildMessages(vtg, rmc, gga).value[1])) == Ok(rmc)
    ensures ParseSentence(DecodeAsciiIgnore(BuildMessages(vtg, rmc, gga).value[2])) == Ok(gga)
  {
    PlainBodyFrames(vtg);
    PlainBodyFrames(rmc);
    PlainBodyFrames(gga);
  }

  /** With the defaults, every third datagram from the first on is the default VTG sentence. */
  lemma DefaultBroadcastStartsWithVtg(sent: seq<seq<Byte>>, k: nat)
    requires Cycles(sent, DefaultMessages())
    requires k < |sent| && k % 3 == 0
    ensures ParseSentence(DecodeAsciiIgnore(sent[k])) == Ok(DefaultVtg)
  {
    var msgs := DefaultMessages();
    assert sent[k] == msgs[k % 3];
  }
}
