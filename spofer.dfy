/**
 * The single-sentence sender of spofer.py: the body is read once and
 * stripped, a blank one ends the program before anything is framed, and the
 * frame comes from this file's `make_nmea`, whose f-string starts with "$$".
 * The prompt, the socket and the resend loop are left out.
 */
module Spofer {
  import opened PyStr
  import opened Nmea

  /** Why no message is sent: `exit(1)` on a blank reply, or the strict ASCII encoding failing. */
  datatype SendError = NoSentence | EncodingFailed(e: EncodeError)

  /** `body = input(...).strip()` and the test `if not body: exit(1)`. */
  function ReadBody(reply: string): (r: Result<string, SendError>)
    ensures r == Err(NoSentence) <==> Strip(reply) == []
    ensures r.Ok? ==> r.value == Strip(reply) && r.value != []
    ensures r.Ok? ==> !IsSpace(r.value[0]) && !IsSpace(r.value[|r.value| - 1])
  {
    var body := Strip(reply);
    if body == [] then Err(NoSentence) else Ok(body)
  }

  /** The message the loop sends, as written: framed by the "$$" `make_nmea`. */
  function Message(reply: string): (r: Result<seq<Byte>, SendError>)
    ensures r == Err(NoSentence) <==> Strip(reply) == []
    ensures r.Ok? <==> Strip(reply) != [] && IsAscii(Strip(reply))
    ensures r.Ok? ==> IsAsciiBytes(r.value)
    ensures r.Ok? ==> DecodeAsciiIgnore(r.value) == "$$" + Strip(reply) + "*" + Checksum(Strip(reply)) + "\r\n"
  {
    match ReadBody(reply)
    case Err(e) => Err(e)
    case Ok(body) =>
      match MakeNmeaDoubleDollar(body)
      case Err(e) => Err(EncodingFailed(e))
      case Ok(m) => Ok(m)
  }

  /**
   * For every ASCII reply without "*" that is not blank, the message of the
   * program as written is not a valid NMEA 0183 sentence.
   */
  lemma MessageRejected(reply: string)
    requires IsAscii(reply) && '*' !in reply && Strip(reply) != []
    ensures Message(reply).Ok?
    ensures ParseSentence(DecodeAsciiIgnore(Message(reply).value)) == Err(ChecksumMismatch)
  {
    StripAscii(reply);
    StripExcludes(reply, '*');
    DoubleDollarRejected(Strip(reply));
  }

  /** The message as evidently intended: the body framed with a single "$". */
  function FixedMessage(reply: string): (r: Result<seq<Byte>, SendError>)
    ensures r == Err(NoSentence) <==> Strip(reply) == []
    ensures r.Ok? <==> Strip(reply) != [] && IsAscii(Strip(reply))
    ensures r.Ok? ==> IsAsciiBytes(r.value)
    ensures r.Ok? ==> DecodeAsciiIgnore(r.value) == FrameText(Strip(reply))
  {
    match ReadBody(reply)
    case Err(e) => Err(e)
    case Ok(body) =>
      match MakeNmea(body)
      case Err(e) => Err(EncodingFailed(e))
      case Ok(m) => Ok(m)
  }

  /** Every fixed message is a valid sentence carrying the stripped reply. */
  lemma FixedMessageValidates(reply: string)
    requires IsAscii(reply) && '*' !in reply && Strip(reply) != []
    ensures FixedMessage(reply).Ok?
    ensures ParseSentence(DecodeAsciiIgnore(FixedMessage(reply).value)) == Ok(Strip(reply))
  {
    StripAscii(reply);
    StripExcludes(reply, '*');
    MakeNmeaValidates(Strip(reply));
  }
}
