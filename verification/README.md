# 3CX click-to-dial client: a verified model of its binary sub-protocol

The client (`main.py`) logs in to a 3CX PBX, learns which phone line the
caller is registered on from a binary push frame on the web client's
websocket, and posts a binary "place call" frame that makes that phone ring
and dial the destination number. This project models, in Dafny, the four pure
pieces of that workflow and proves their properties:

1. **Number normalisation** (`NumberNormalization`): strip the argument,
   replace every `+` by `00`, keep only the digits.
2. **Push-frame selection** (`PushSelection`): the websocket is a finite
   trace of `Msg = Text(string) | Binary(bytes)`. The first message must be
   `"START"`. After it, text messages are skipped, and so are binary messages
   that do not start with `08 C9 01 CA 0C`. The first marked binary message is
   selected.
3. **Phone-line extraction** (`PhoneLine`): split the frame on `0x1A`. Cut
   every field that starts with `(sip:` at its first `"`. The last such field
   wins, and no such field means failure.
4. **Call-frame encoding** (`CallCommand`):
   `08 77 BA 07, |body|, body` with `body = 0A, |digits|, digits, 1A, line`,
   together with a decoder that inverts it exactly.

`Dialer` composes them (`LocatePhoneLine` is `get_phone_config` without its
I/O; `BuildCallFrame` is the frame the script posts; `Dial` chains the two). `Bytes` holds the byte
helpers (`startswith`, `split` with Python's semantics, ASCII
encoding/decoding). `Wrappers` holds `Option`/`Result`. `WorkedExamples` proves
what the model does with concrete frames and traces.

Bytes are the newtype `byte = 0..255`. Text is `string`. Exceptions of the
source are error values (`Result.Err`, `Option.None`, `Selection.BadStart`).

Facts about the code that a quick reading can miss, each proved below:
- `.replace("+", "00")` (main.py:18) replaces every `+`, not only a
  leading one (`NumberNormalization.NormalizeChar`, `NormalizeAppend`).
- The code splits the frame on `0x1A` (main.py:117) before it looks for
  `(sip:`. So the field holding the `08 C9 01 CA 0C` marker can never match,
  and a `(sip:` directly after the marker, with no `0x1A` in between, is never
  found: the client stops with "Failed to get phone config"
  (`Dialer.AnnouncementFieldIsNotSip`,
  `WorkedExamples.UnseparatedAnnouncementHasNoLine`, `MarkerFieldExample`).
- The digit count may be at most 127, not 255: `bytes([n]).decode()`
  (main.py:149) raises for a lone byte of 0x80 or more.
- The fifth byte of the frame is the length of the whole second body part
  (main.py:151-154), not the digit count, which is the seventh byte
  (main.py:144-148). Dialling 12345 from `(sip:10.0.0.5:5060;line=1` gives
  33 and 5 there (`WorkedExamples.CallFrameExample`).

## Model

| member | source | states |
|---|---|---|
| `NumberNormalization.Strip` | main.py:18 | `.strip()` keeps a contiguous part of the argument that neither starts nor ends with whitespace, and everything it cuts away on either side is whitespace (Python's `isspace` set) |
| `NumberNormalization.ReplacePlus` | main.py:18 | `.replace("+", "00")` leaves no `+` in the string |
| `NumberNormalization.ReplacePlusChar` | main.py:18 | a single `+` is replaced by `00`, and any other single character is kept |
| `NumberNormalization.ReplacePlusAppend` | main.py:18 | the replacement of a concatenation is the concatenation of the replacements, so every `+` becomes `00` wherever it stands and every other character keeps its place |
| `NumberNormalization.ReplacePlusWithoutPlus` | main.py:18 | a string without `+` is left unchanged by the replacement |
| `NumberNormalization.KeepDigits` | main.py:19 | the comprehension yields only digits and is never longer than its input |
| `NumberNormalization.KeepDigitsAppend` | main.py:19 | filtering a concatenation is the concatenation of the filtered parts, so the digits keep their order and multiplicity |
| `NumberNormalization.KeepDigitsKeepsDigits` | main.py:19 | every digit occurring in the input occurs in the result, every character of the result occurs in the input, and an all-digit string is left unchanged |
| `NumberNormalization.Normalize` | main.py:18-19 | the normalised number consists of ASCII digits only |
| `NumberNormalization.TrimStartRemovesLeadingSpace` | main.py:18 | stripping the front drops a whitespace-only prefix, and what is left is empty or starts with a non-whitespace character |
| `NumberNormalization.TrimEndRemovesTrailingSpace` | main.py:18 | stripping the end drops a whitespace-only suffix, and what is left is empty or ends with a non-whitespace character |
| `NumberNormalization.NormalizeIsCharwise` | main.py:18-19 | strip, replace and filter together act as a per-character map: `+` becomes `00`, a digit stays, anything else (surrounding whitespace included) becomes empty |
| `NumberNormalization.NormalizeChar` | main.py:18-19 | a single `+` gives `00`, a single digit gives itself, and any other character gives the empty string |
| `NumberNormalization.NormalizeAppend` | main.py:18-19 | normalising a concatenation gives the concatenation of the normalised parts, so the relative order of the input is preserved |
| `NumberNormalization.NormalizeFixedPoints` | main.py:18-19 | a string is left unchanged by normalisation exactly when it is all digits |
| `NumberNormalization.NormalizeIdempotent` | main.py:18-19 | normalising twice gives the same result as normalising once |
| `PushSelection.FirstAnnouncement` | main.py:105-114 | returns nothing exactly when no message carries the marker; otherwise returns the payload of the first marked message, with no marked message before it |
| `PushSelection.Select` | main.py:73-114 | the outcome is BadStart exactly when the first message is not text "START", and it carries that message. It is Blocked exactly when the trace is empty or no later message is marked. Otherwise it is the first marked binary message after the handshake |
| `PushSelection.AwaitAnnouncement` | main.py:73-114 | the receive loop (check the handshake, skip text, skip unmarked binary) computes the selection, and a selected frame is one of the trace's binary messages |
| `PushSelection.IgnoresNonAnnouncements` | main.py:105-112 | inserting a text message or an unmarked binary message anywhere after the handshake leaves the selection unchanged |
| `PushSelection.SelectionStable` | main.py:112-114 | the first marked message wins: messages that arrive after it do not change the selection |
| `Bytes.Split` | main.py:117 | splitting gives at least one piece, and no piece contains the separator |
| `Bytes.JoinSplit` | main.py:117 | joining the pieces with the separator gives back the frame, so splitting loses no byte |
| `Bytes.SplitJoin` | main.py:117 | splitting a join of separator-free pieces gives back exactly those pieces |
| `Bytes.TakeUntil` | main.py:119 | the truncation is a prefix of the field, contains no stop byte, and ends either at the end of the field or just before its first stop byte |
| `Bytes.TakeUntilIsFirstPiece` | main.py:119 | truncating at the first quote is the same as taking `split(b'"')[0]` |
| `PhoneLine.LineOfSipField` | main.py:118-119 | a field starting with `(sip:` keeps that prefix after truncation at its first quote |
| `PhoneLine.LastSipLine` | main.py:116-119 | returns nothing exactly when no field starts with `(sip:`; otherwise returns the truncated identifier of a `(sip:` field after which no field starts with `(sip:` |
| `PhoneLine.ExtractPhoneLine` | main.py:116-121 | extraction fails exactly when no 0x1A-separated field of the frame starts with `(sip:`; otherwise the result comes from the last such field |
| `PhoneLine.ExtractsLastSipField` | main.py:117-121 | when several fields match, the identifier of the last one is extracted |
| `PhoneLine.ExtractedLineShape` | main.py:116-121 | whenever extraction succeeds, the result starts with `(sip:`, contains no `"` and no 0x1A, and is a prefix of one of the frame's 0x1A-separated fields |
| `PhoneLine.ParsePhoneConfig` | main.py:116-122 | the loop over the fields, which overwrites the result at each `(sip:` field, computes the extraction |
| `CallCommand.Encode` | main.py:149-158 | encoding succeeds exactly when the digit count is at most 127 and the body (3 + digits + line) is at most 255 bytes. A count above 255, a count of 128..255 and an oversized body each give their own error. On success the frame starts with `08 77 BA 07`, and its fifth byte equals its length minus 5 |
| `CallCommand.CallFrameLayout` | main.py:144-158 | byte positions of an encoded frame: header, then the body length, then `0A`, then the digit count, then the ASCII digits, then `1A`, then the phone line verbatim |
| `CallCommand.Decode` | main.py:144-149 | whatever the decoder accepts is all-digit and has an ASCII line |
| `CallCommand.DecodeEncode` | main.py:144-158 | decoding an encoded frame recovers the digits and the phone line exactly |
| `CallCommand.EncodeDecode` | main.py:144-158 | every frame the decoder accepts is exactly the encoding of what it decodes to |
| `Dialer.AnnouncementFieldIsNotSip` | main.py:112-118 | the first 0x1A-separated field of a marked frame never starts with `(sip:` |
| `Dialer.LocatePhoneLine` | main.py:62-122 | a handshake error happens exactly when the first message is not "START", and it carries that message. The client blocks exactly when the trace is empty or no marked message follows the handshake |
| `Dialer.LocatedLineIsExtraction` | main.py:112-122 | once a frame is selected, the locator fails with "Failed to get phone config" exactly when extraction from that frame fails, succeeds exactly when it succeeds, and then returns the extracted line |
| `Dialer.LocatedLineShape` | main.py:105-122 | a located line starts with `(sip:`, contains no `"` and no 0x1A, and is a prefix of a field, other than the first, of the first marked binary message after the handshake |
| `Dialer.BuildCallFrame` | main.py:144-158 | a frame is built exactly when the phone line is ASCII and the size bounds hold for the normalised number; otherwise the error is a non-ASCII line or an encoding failure. The frame decodes to the normalised number and the phone line |
| `Dialer.Dial` | main.py:134-158 | a locator failure is passed on unchanged. A frame is built exactly when a line was located, that line is ASCII, the normalised number has at most 127 digits and the body is at most 255 bytes; when the line was located, any other failure is a non-ASCII line or an encoding error. A built frame decodes to the normalised number and the located line |
| `WorkedExamples.QuotedLineExtracted` | main.py:116-122 | for any frame `head 1A (sip: id " tail 1A trailer` whose trailer is not a `(sip:` field, the extracted line is `(sip: id` |
| `WorkedExamples.SeparatedFrameExample` | main.py:116-122 | the frame made of the marker, 0x1A and `(sip:X"` yields the line `(sip:X` |
| `WorkedExamples.UnseparatedAnnouncementHasNoLine` | main.py:116-121 | a marked frame that contains no 0x1A yields no phone line, whatever bytes follow the marker |
| `WorkedExamples.MarkerFieldExample` | main.py:105-121 | the trace `START`, `hello`, `00 01`, marker followed directly by `(sip:X"`, `trailer` ends in "Failed to get phone config" |
| `WorkedExamples.SeparatedFieldExample` | main.py:105-122 | the same trace with a 0x1A after the marker yields `(sip:X` |
| `WorkedExamples.CallFrameExample` | main.py:144-158 | dialling 12345 from `(sip:10.0.0.5:5060;line=1` gives a 38-byte frame with body length 33 and digit count 5, and the frame decodes back to the request |

## Left out

- Logging in (`do_login`, main.py:26-59): HTTP requests and JSON responses; network I/O.
- Opening the websocket with TLS options (main.py:68-71), posting the seven query frames (main.py:90-102), closing the websocket (main.py:115) and posting the call frame (main.py:156-168): network I/O. The query frames are kept as the constant table `PushSelection.QueryFrames`.
- Reading `sys.argv` and the `PBX_URL` environment variable (main.py:16-23): process configuration.
- A websocket that never delivers the awaited frame makes the client block forever. The model has a finite trace, and running out of it is the outcome `Blocked`.
- `NumberNormalization.KeepDigits`: keeps only `'0'..'9'`, for the reason given on the next line.
- `NumberNormalization.Normalize`: Python's `str.isdigit()` also accepts non-ASCII digits (for example superscripts and Arabic-Indic digits); only `'0'..'9'` count as digits here.
- `CallCommand.Encode`: requires an ASCII phone line. For a line with a byte of 0x80 or more, the source's `.decode()` either raises or yields characters. In the second case, the length byte at main.py:154 counts characters while the frame carries more bytes. Neither behaviour is modelled.
- `Dialer.Dial`: inherits the `LineNotAscii` outcome of `BuildCallFrame` for a non-ASCII phone line.
- `Dialer.BuildCallFrame`: returns `LineNotAscii` for a non-ASCII phone line, for the same reason, instead of the source's UnicodeDecodeError or its miscounted frame.
