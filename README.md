# NMEA 0183 UDP tools: a Dafny model

The repository is a handful of small Python scripts that build NMEA 0183 sentences and send or relay them over UDP. This project models their text layer and the small motion model:

- the XOR checksum `nmea_checksum`, rendered as `%02X`. There is one shared definition, `Nmea.Checksum`, plus the accumulator loop `Nmea.NmeaChecksum`, proved equal to it;
- the three `make_nmea` variants:
  - `Nmea.MakeNmea` (autospof.py, no strip);
  - `Nmea.MakeNmeaStripped` (ramdom.py and spof2.py, strip first);
  - `Nmea.MakeNmeaDoubleDollar` (spofer.py, literal `"$$"` prefix);
- an independent NMEA sentence validator, `Nmea.ParseSentence`, used as the reference the framings are checked against;
- autospof.py: `normalize_nmea` and the per-datagram step of the `forward_from_udp` loop, as the method `Autospof.ForwardDatagram`. That method is proved against the function `Autospof.RelayOutput`;
- ramdom.py:
  - Python's float `%`;
  - `triangle_wave`;
  - the course, speed and latitude of the main loop;
  - the DDMM ⇄ decimal conversions;
  - the three sentence bodies of one tick;
- spof2.py: the default bodies, the `ask_sentence` choice, the messages built once, and the VTG → RMC → GGA send order (`Spof2.Broadcast`);
- spofer.py: the blank-input exit and the `"$$"` frame.

The Python built-ins these scripts rely on are modelled in `PyStr`:
- `str.strip`, over the 29 Unicode white-space code points;
- `str.splitlines`, over its full set of line boundaries;
- `encode("ascii")`, strict, as a `Result` whose error is `UnicodeEncodeError`;
- `encode("ascii", errors="ignore")` and `decode("ascii", errors="ignore")`.

Motion is modelled over exact `real` arithmetic.

The relay's comment `# drop VTG sentences` (autospof.py:90) is wider than its test, and the model follows the test: only raw lines that begin with `$GPVTG` are dropped. A bare `GPVTG,...` body, or a `$GPVTG` line after white space, is still forwarded (`Autospof.BareVtgForwarded`, `Autospof.IndentedVtgForwarded`).

The course rule counts phase 0.25 as falling, because `phase < 0.25` fails there (ramdom.py:125). So at the quarter period, the northern turning point (30 s with the default 120 s period), the reported course is already 180.0, not 0. `Ramdom.DefaultsAtQuarterPeriod` states this instant.

Files:
- pystr.dfy: Python string built-ins.
- nmea.dfy: checksum, framings, validator.
- autospof.dfy: relay.
- ramdom.dfy: motion sender.
- spof2.dfy: three-sentence sender.
- spofer.dfy: single-sentence sender.

## Model

| member | source | states |
|---|---|---|
| Nmea.XorFold | autospof.py:9-11 | the XOR of `ord(ch)` over the body, folded first to last; its distribution over concatenation is `Nmea.XorFoldAppend` |
| Nmea.Hex02 | autospof.py:12 | `%02X`: upper-case hex digits, at least two, exactly two below 256; `Nmea.ParseHex02` reads them back as the number |
| Nmea.Checksum | autospof.py:8-12 | upper-case hex digits, at least two, whose value is the XOR of the character codes; exactly two digits when every code is below 256 |
| Nmea.NmeaChecksum | ramdom.py:15-19 | the `for ch in body: csum ^= ord(ch)` loop returns the checksum of the whole body |
| Nmea.ChecksumEmpty | spof2.py:17-21 | the empty body has checksum "00" (zero padding) |
| Nmea.XorFoldAppend | autospof.py:9-11 | the checksum of a concatenation is the XOR of the parts' checksums |
| Nmea.XorFoldByte | spofer.py:9-13 | characters below 256 keep the XOR below 256, so `%02X` gives two digits |
| Nmea.ParseHexDigits | autospof.py:12 | reading the hex rendering back gives the number: the rendering loses nothing |
| Nmea.ParseSentence | autospof.py:16 | a validated line is "$", a body without "*", "*", two hex digits and CR LF, and the digits read as the XOR checksum of the body |
| Nmea.FrameText | autospof.py:16 | the text "$" + body + "*" + checksum + CR LF that `make_nmea` encodes; `Nmea.FrameTextOneStar` and `Nmea.FrameTextValidates` state its shape and validity |
| Nmea.FrameTextOneStar | autospof.py:16 | a body without "*" is framed with exactly one "*", right after the body |
| Nmea.ParseFramed | autospof.py:16 | a "$ inner * digits CR LF" text validates to `inner` exactly when the digits are the checksum of `inner`, and otherwise fails with a checksum mismatch |
| Nmea.FrameTextValidates | autospof.py:14-16 | the frame of a Latin-1 body without "*" validates back to that body |
| Nmea.MakeNmea | autospof.py:14-16 | succeeds exactly for an ASCII body; the bytes are ASCII and decode to "$" + body + "*" + checksum(body) + CR LF, unstripped |
| Nmea.MakeNmeaValidates | autospof.py:14-16 | for an ASCII body without "*", the frame is a valid sentence carrying the body |
| Nmea.MakeNmeaStripped | ramdom.py:21-24 | strips first: succeeds exactly when the stripped body is ASCII, and its ASCII bytes frame and checksums the stripped body |
| Nmea.MakeNmeaStrippedValidates | spof2.py:23-26 | for an ASCII body without "*", the stripping frame validates to the stripped body |
| Nmea.MakeNmeaDoubleDollar | spofer.py:15-17 | succeeds exactly for an ASCII body; the bytes are ASCII and the text is "$$" + body + "*" + checksum(body) + CR LF, the checksum covering neither "$" |
| Nmea.DoubleDollarRejected | spofer.py:15-17 | every "$$" frame of an ASCII body without "*" fails validation with a checksum mismatch |
| Nmea.DollarChecksum | spofer.py:17 | a leading "$" changes the XOR by 0x24, so the checksum of "$" + body is never that of body |
| PyStr.Strip | autospof.py:19 | the result is a slice of the input with white space removed at both ends and no white space at its ends |
| PyStr.StripEmptyIff | autospof.py:19-21 | strip leaves nothing exactly when every character is white space, the blank-line case of `normalize_nmea` |
| PyStr.StripIdempotent | spof2.py:31 | stripping twice is stripping once |
| PyStr.StrippedNotCrLf | autospof.py:23 | a stripped string never ends with CR LF |
| PyStr.SplitLines | autospof.py:86 | every line is free of line breaks and made of characters of the input |
| PyStr.SplitJoinCrLf | autospof.py:86 | splitting lines that each end in CR LF gives back the lines |
| PyStr.EncodeAscii | autospof.py:16 | strict encoding succeeds exactly for ASCII text |
| PyStr.EncodeAsciiIgnore | autospof.py:25 | `encode("ascii", errors="ignore")`: the bytes are all ASCII and there are never more of them than characters |
| PyStr.EncodeAsciiExact | autospof.py:25 | on ASCII text the encoder gives one byte per character, the character's code |
| PyStr.EncodeDropsNonAscii | autospof.py:25 | a non-ASCII character is dropped wherever it stands, leaving the rest's encoding |
| PyStr.DecodeAsciiIgnore | autospof.py:85 | `decode("ascii", errors="ignore")`: the text is all ASCII and never longer than the bytes |
| PyStr.DecodeAsciiExact | autospof.py:85 | on ASCII bytes the decoder gives one character per byte, the byte's character |
| PyStr.DecodeDropsHigh | autospof.py:85 | a byte of 128 or more is dropped wherever it stands, leaving the rest's decoding |
| PyStr.DecodeEncode | autospof.py:85 | ASCII text survives encoding and decoding with errors ignored |
| PyStr.EncodeDecode | autospof.py:85 | ASCII bytes survive decoding and encoding with errors ignored |
| Autospof.Normalize | autospof.py:18-26 | fails only for a non-blank stripped line that does not start with "$" and is not ASCII; returns empty exactly for a blank line; succeeds for ASCII input |
| Autospof.NormalizePassThrough | autospof.py:22-25 | a stripped line starting with "$" is sent as itself plus CR LF, with no checksum recomputed or checked |
| Autospof.NormalizeBareBody | autospof.py:26 | any other non-blank line is `make_nmea` of the stripped line |
| Autospof.NormalizeGivesFrame | autospof.py:19-26 | for ASCII input, every non-empty result is an ASCII frame: "$", no trailing space, CR LF |
| Autospof.FrameIsFixedPoint | autospof.py:19-26 | normalising a frame, with or without its CR LF, gives back the frame |
| Autospof.NormalizeIdempotent | autospof.py:18-26 | for an ASCII line (every line the relay passes in is one), normalising the decoded output of `normalize_nmea` gives the same output |
| Autospof.Skipped | autospof.py:87-90 | the two `continue`s: an empty line, or with `ignore_vtg` a line starting "$GPVTG"; `Autospof.SkippedLineDropped` shows such a line changes nothing, with `ignore_vtg` on or off |
| Autospof.RelayLines | autospof.py:86-93 | at most one message per line, in line order; `Autospof.RelayLinesFrames` shows each is a frame |
| Autospof.RelayOutput | autospof.py:82-93 | the messages one datagram makes the relay send: at most one per line of its text, each a frame |
| Autospof.ForwardDatagram | autospof.py:82-93 | the loop sends exactly the relayed messages of the datagram, in order, and nothing for a self-echo |
| Autospof.RelayLinesAppend | autospof.py:86-93 | the relay of two runs of lines is the relay of each, one after the other |
| Autospof.RelayLinesOne | autospof.py:87-93 | a single line gives nothing if skipped or blank, and otherwise its normalised message |
| Autospof.RelayLinesFrames | autospof.py:91-93 | every relayed message is a frame |
| Autospof.VtgLineDropped | autospof.py:89-90 | with `ignore_vtg`, a line starting with "$GPVTG" can be removed without changing the output |
| Autospof.BareVtgForwarded | autospof.py:89-91 | a bare "GPVTG" body is not dropped: it is framed by `make_nmea` and sent |
| Autospof.IndentedVtgForwarded | autospof.py:89-91 | a "$GPVTG" line after any non-empty run of white space escapes the raw-text filter and is sent stripped plus CR LF |
| Autospof.DecodeFlatten | autospof.py:85-86 | the concatenated messages decode to their lines, each followed by CR LF |
| Autospof.RelayOutputFrames | autospof.py:82-93 | every datagram's output is a run of single-line frames |
| Autospof.RelayIdempotent | autospof.py:82-93 | relaying the concatenated output again, from another host, gives the same messages when none is a VTG line to drop |
| Ramdom.PyMod | ramdom.py:70 | Python's float `%` takes the sign of the divisor and stays below it in size |
| Ramdom.PyModIdentity | ramdom.py:70 | `t % p == t - p * floor(t / p)` |
| Ramdom.Phase | ramdom.py:70 | the phase `(t % P) / P` lies in [0, 1) and is the fractional part of t / P |
| Ramdom.Triangle | ramdom.py:71-76 | the three branches stay in [-1, 1] on [0, 1) |
| Ramdom.TriangleWave | ramdom.py:66-76 | the wave lies in [-1, 1] for every non-zero period |
| Ramdom.TriangleKnots | ramdom.py:66-76 | for every non-zero period P, the wave over time is 0, 1, 0, -1 and 0 at t = 0, P/4, P/2, 3P/4 and P |
| Ramdom.TriangleLipschitz | ramdom.py:71-76 | the wave changes by at most 4 times the change of phase: no jumps |
| Ramdom.TriangleWraps | ramdom.py:74-76 | near phase 1 the wave approaches its value at phase 0, so it is continuous across the wrap |
| Ramdom.WavePeriodic | ramdom.py:70 | shifting t by any whole number of periods leaves the wave unchanged |
| Ramdom.HeadingFollowsWave | ramdom.py:122-126 | within one segment of the wave, course 0 means the wave rises and course 180 means it falls, in both directions |
| Ramdom.Course | ramdom.py:124-126 | 0 or 180, and 0 exactly on the rising segments, phase below 0.25 or at least 0.75 |
| Ramdom.SpeedKnots | ramdom.py:100 | speed times the half-period in hours is twice the amplitude; equal to 14400 A / P; positive for A, P > 0 |
| Ramdom.Latitude | ramdom.py:95-116 | the latitude stays within start ± A/60 degrees |
| Ramdom.LegDelta | ramdom.py:116-126 | on one leg, the latitude moves by A/15 degrees per period, northward exactly when the course is 0 |
| Ramdom.SpeedMatchesTrack | ramdom.py:95-126 | on one leg the distance covered in nautical miles is speed times hours, and the course is 0 exactly when latitude increases |
| Ramdom.DegreesBounds | ramdom.py:27 | the degree part `floor(v / 100)` leaves minutes in [0, 100) |
| Ramdom.DdmmToDecimalLat | ramdom.py:26-32 | for a non-negative DDMM value, the size is degrees plus minutes over 60; for a positive size, the result is negative exactly for a southern hemisphere letter, compared case-insensitively |
| Ramdom.DddmmToDecimalLon | ramdom.py:34-40 | the same for DDDMM longitude, negative exactly for a western letter |
| Ramdom.DecimalToDdmmLat | ramdom.py:42-48 | "N" exactly for a non-negative latitude, else "S"; the number is non-negative, its minutes are below 60, and it reads back as the latitude's size |
| Ramdom.DecimalToDddmmLon | ramdom.py:50-56 | "E" exactly for a non-negative longitude, else "W"; the number is non-negative, its minutes are below 60, and it reads back as the longitude's size |
| Ramdom.LatRoundTrip | ramdom.py:26-48 | converting a decimal latitude to DDMM and hemisphere, and back, gives the original value |
| Ramdom.LonRoundTrip | ramdom.py:34-56 | converting a decimal longitude to DDDMM and hemisphere, and back, gives the original value |
| Ramdom.DegMinRoundTrip | ramdom.py:42-56 | `dd * 100 + mm` has degree part dd and minutes mm, and converts back to the decimal value |
| Ramdom.DegreesRoundTrip | ramdom.py:26-40 | a non-negative DDMM value with minutes below 60 converts to decimal and back unchanged |
| Ramdom.DdmmRoundTrip | ramdom.py:26-48 | for a non-negative DDMM value with minutes below 60, DDMM to decimal and back keeps the value; the hemisphere is "S" exactly when the input was southern (case-insensitively) and non-zero |
| Ramdom.DddmmRoundTrip | ramdom.py:34-56 | for a non-negative DDDMM value with minutes below 60, DDDMM to decimal and back keeps the value; the hemisphere is "W" exactly when the input was western and non-zero |
| Ramdom.StartPosition | ramdom.py:10-13 | the start is 34° 8.08333' N, 77° 52' W in decimal degrees |
| Ramdom.MotionFix | ramdom.py:113-126 | one tick's fix: latitude within start ± A/60, longitude fixed, course 0 exactly on the rising phases, and the speed of the formula |
| Ramdom.DefaultsAtFifteenSeconds | ramdom.py:81-126 | with the defaults (5 NM, 120 s), 15 s in, the boat is 2.5 minutes north of the start, heading 0 at 600 knots |
| Ramdom.DefaultsAtQuarterPeriod | ramdom.py:122-126 | with the defaults, at 30 s the boat is 5 minutes north of the start, at the turning point, and the course is already 180 |
| Ramdom.VtgBody | ramdom.py:132 | the VTG f-string over formatted fields; `Ramdom.VtgClean` shows it is clean, starts with "G" and ends with "A" |
| Ramdom.RmcBody | ramdom.py:135 | the RMC f-string over formatted fields; `Ramdom.RmcClean` shows it is clean, starts with "G" and ends with "A" |
| Ramdom.GgaBody | ramdom.py:138 | the GGA f-string over formatted fields; `Ramdom.GgaClean` shows it is clean, starts with "G" and ends with "," |
| Ramdom.CleanBodyValidates | ramdom.py:21-24 | for a non-empty ASCII body without "*" and with no white space at its ends, the frame is a sentence that validates to the body |
| Ramdom.TickFrames | ramdom.py:131-142 | one tick sends three frames of ASCII bytes, VTG, RMC and GGA in that order, each validating to its body |
| Spof2.AskSentence | spof2.py:28-32 | a non-blank reply, stripped, wins and a blank one gives the default; a non-empty default means the body is never empty; a stripped default means the result is stripped |
| Spof2.AskSentenceFramed | spof2.py:23-32 | for a stripped default, the stripping frame of the chosen body is the plain frame |
| Spof2.DefaultsPlain | spof2.py:10-12 | the three defaults are ASCII, contain no "*", and have nothing for strip to remove |
| Spof2.PlainBodyFrames | spof2.py:10-12 | such a body is framed with exactly one "*", right before its checksum, and validates back |
| Spof2.DefaultsFrame | spof2.py:10-12 | each default frames into a valid sentence carrying that default |
| Spof2.BuildMessages | spof2.py:48-50 | succeeds exactly when the three stripped bodies are ASCII, giving the VTG, RMC and GGA frames in that order, as ASCII bytes |
| Spof2.CyclesRound | spof2.py:56-58 | one more round of three keeps the output cycling VTG, RMC, GGA |
| Spof2.Broadcast | spof2.py:54-58 | `rounds` passes send 3 × rounds datagrams, datagram k being message k mod 3 |
| Spof2.BuildPlain | spof2.py:48-50 | three plain bodies build three messages, each validating to its body |
| Spof2.DefaultMessages | spof2.py:43-50 | on the three default bodies the messages are built without error, and each validates to its default |
| Spof2.DefaultBroadcastStartsWithVtg | spof2.py:43-58 | with the defaults, every third datagram from the first on validates to the default VTG body |
| Spofer.ReadBody | spofer.py:30-33 | a blank reply exits before framing; otherwise the body is the non-empty stripped reply |
| Spofer.Message | spofer.py:30-35 | no message for a blank reply; otherwise a message exactly when the body is ASCII, whose ASCII bytes have text is "$$" + body + "*" + checksum + CR LF |
| Spofer.MessageRejected | spofer.py:15-35 | the message sent for an ASCII reply without "*" fails NMEA validation |
| Spofer.FixedMessage | spofer.py:30-35 | the message with a single "$": same error cases, ASCII bytes whose text is the plain frame of the stripped body |
| Spofer.FixedMessageValidates | spofer.py:15-35 | for a non-blank ASCII reply without "*", the single-"$" message validates to the stripped reply |

## Left out

- Sockets (creation, bind, `sendto`, `recvfrom`, timeouts, close): the relay step takes the datagram and its source address as parameters and returns the messages to send. `lis.py` and `tools/data.py` are socket scripts only and are not part of this model.
- The `recvfrom(4096)` limit (autospof.py:77): `Autospof.RelayOutput` takes the whole datagram, so the truncation of a longer datagram is not modelled. `Autospof.RelayIdempotent` relays the relay's messages back to back as one datagram, while the program sends one datagram per message (autospof.py:86-94); that combined text can exceed 4096 bytes, and the lemma does not account for the limit.
- `get_local_ip_for`: an OS routing lookup, so the local address is a parameter.
- `ask_ip`, `ask_port` and every `input()` call: prompts, so the replies and the chosen values are parameters.
- The `float(...)` parsing of the ramdom.py prompts and its fallback to defaults: conversion of text to IEEE floats.
- Clock reads (`time.time`, `utc_hhmmss_s`, `utc_ddmmyy`) and `time.sleep`: time `t` and the time strings are parameters.
- IEEE floating point: ramdom.py's arithmetic is modelled over exact reals, so rounding, infinities and NaN are not modelled.
- Ramdom.PyMod, Ramdom.PyModIdentity, Ramdom.Phase, Ramdom.TriangleWave, Ramdom.TriangleKnots, Ramdom.WavePeriodic, Ramdom.Course, Ramdom.SpeedKnots, Ramdom.Latitude, Ramdom.LegDelta, Ramdom.SpeedMatchesTrack, Ramdom.MotionFix (every member that takes a period): a zero period raises ZeroDivisionError in the source, and these require a non-zero period instead of modelling that error. Ramdom.SpeedMatchesTrack also requires a positive period and amplitude and t1 < t2, the direction in which distance over time is a speed.
- Fixed-point formatting (`:09.5f`, `:010.5f`, `:.1f`) and the `* 1.852` km/h factor: IEEE float rendering. The ramdom.py sentence fields are pre-formatted string parameters (`Ramdom.Fields`).
- `tools/location.py`: a one-off floating-point trigonometry script, not part of this model.
- `print` output and KeyboardInterrupt handling: plumbing only.
- The endless `while True` loops: spof2.py's loop is bounded by a `rounds` parameter. The spofer.py resend loop only repeats one fixed message and is not modelled beyond that message.
- Spof2.DefaultsPlain: proves the defaults are ASCII and free of "*", not also free of "$", CR and LF; the "*"-free part is what the one-"*" framing property needs.
- Spof2.DefaultsFrame: states that each default validates, not the concrete two-digit checksum each one gets, because evaluating the XOR fold over these long literals character by character is more than the solver's budget allows; validation already fixes the digits as the body's checksum.

## Findings

| source | as written | input that shows it | evidently intended | confidence | as-written member | corrected member |
|---|---|---|---|---|---|---|
| spofer.py:17 | the f-string `f"$${body}*{cs}\r\n"` emits two "$" characters, and the checksum covers the body only | body "GPRMC" gives "$$GPRMC*" + checksum("GPRMC"); as NMEA, the text checksummed is "$GPRMC", whose XOR differs by 0x24, so the sentence fails validation | a single "$" before the body, as in the other three scripts | not executed | Spofer.MessageRejected | Spofer.FixedMessageValidates |
