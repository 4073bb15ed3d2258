/** The "place call" frame (main.py, lines 144-158):

      frame        = 08 77 BA 07, |bodyPartTwo|, bodyPartTwo
      bodyPartTwo  = 0A, |digits|, digits, 1A, phone line

    Both length fields are single bytes, and the client builds the digit count
    as one-byte text, so the encoding fails outside the bounds `Encode` states. */
module CallCommand {
  import opened Wrappers
  import opened Bytes
  import opened NumberNormalization

  /** The fixed header of the frame. */
  const CallHeader: seq<byte> := [0x08, 0x77, 0xBA, 0x07]

  /** The tag byte in front of the digit count. */
  const NumberTag: byte := 0x0A

  /** The byte that ends the digits. */
  const NumberEnd: byte := 0x1A

  /** What is dialled, and from which phone line. */
  datatype DialRequest = DialRequest(digits: string, line: seq<byte>)

  /** The requests the model encodes: the digits are ASCII decimal digits (what
      the normaliser produces) and the phone line is ASCII, so that its byte
      count equals its character count. */
  predicate WellFormed(req: DialRequest)
  {
    IsDigits(req.digits) && IsAscii(req.line)
  }

  /** The exceptions the client raises while building the frame. */
  datatype EncodeError =
    | CountOutOfRange   // `bytes([len(NUMBER)])` with a count above 255
    | CountNotUtf8      // `.decode()` of a lone byte 0x80..0xFF
    | BodyTooLong       // `bytes([len(body_part_two)])` with a length above 255

  /** Decimal digits are ASCII characters. */
  lemma DigitsAreAscii(s: string)
    requires IsDigits(s)
    ensures IsAsciiText(s)
  {
    assert forall i :: 0 <= i < |s| ==> IsDigit(s[i]);
  }

  /** The call frame for a request, or the exception the client raises. */
  function Encode(req: DialRequest): (r: Result<seq<byte>, EncodeError>)
    requires WellFormed(req)
    ensures r.Ok? <==> |req.digits| < 0x80 && 3 + |req.digits| + |req.line| <= 0xFF
    ensures |req.digits| > 0xFF ==> r == Err(CountOutOfRange)
    ensures 0x80 <= |req.digits| <= 0xFF ==> r == Err(CountNotUtf8)
    ensures |req.digits| < 0x80 && 3 + |req.digits| + |req.line| > 0xFF ==> r == Err(BodyTooLong)
    ensures r.Ok? ==>
      && |r.value| == 8 + |req.digits| + |req.line|
      && r.value[..4] == CallHeader
      && r.value[4] as int == |r.value| - 5
  {
    var n := |req.digits|;
    if n > 0xFF then Err(CountOutOfRange)
    else if n >= 0x80 then Err(CountNotUtf8)
    else
      DigitsAreAscii(req.digits);
      var body := [NumberTag, n as byte] + EncodeAscii(req.digits) + [NumberEnd] + req.line;
      if |body| > 0xFF then Err(BodyTooLong)
      else Ok(CallHeader + [|body| as byte] + body)
  }

  /** Reads a frame back by the layout rule; `None` for anything `Encode`
      cannot produce. */
  function Decode(frame: seq<byte>): (r: Option<DialRequest>)
    ensures r.Some? ==> WellFormed(r.value)
  {
    if |frame| < 8 || frame[..4] != CallHeader || frame[4] as int != |frame| - 5 then None
    else
      var body := frame[5..];
      var n := body[1] as int;
      if body[0] != NumberTag || n >= 0x80 || 3 + n > |body| || body[2 + n] != NumberEnd then None
      else
        var digits := body[2..2 + n];
        var line := body[3 + n..];
        if !IsAscii(digits) || !IsAscii(line) then None
        else if !IsDigits(DecodeAscii(digits)) then None
        else Some(DialRequest(DecodeAscii(digits), line))
  }

  /** Where each part of the request sits in the frame. */
  lemma CallFrameLayout(req: DialRequest)
    requires WellFormed(req) && Encode(req).Ok?
    ensures var frame := Encode(req).value; var n := |req.digits|;
      && frame[..4] == CallHeader
      && frame[4] as int == n + 3 + |req.line|
      && frame[5] == NumberTag
      && frame[6] as int == n
      && frame[7..7 + n] == EncodeAscii(req.digits)
      && frame[7 + n] == NumberEnd
      && frame[8 + n..] == req.line
  {
  }

  /** Decoding an encoded request gives the request back. */
  lemma DecodeEncode(req: DialRequest)
    requires WellFormed(req) && Encode(req).Ok?
    ensures Decode(Encode(req).value) == Some(req)
  {
    CallFrameLayout(req);
    DigitsAreAscii(req.digits);
    var frame := Encode(req).value;
    var n := |req.digits|;
    assert frame[5..][2..2 + n] == frame[7..7 + n];
    assert frame[5..][3 + n..] == frame[8 + n..];
    DecodeEncodeAscii(req.digits);
  }

  /** Every frame the decoder accepts is exactly the encoding of what it
      decodes to, so `Decode` accepts precisely the frames `Encode` produces. */
  lemma EncodeDecode(frame: seq<byte>)
    requires Decode(frame).Some?
    ensures Encode(Decode(frame).value) == Ok(frame)
  {
    var req := Decode(frame).value;
    var body := frame[5..];
    var n := body[1] as int;
    var digits := body[2..2 + n];
    EncodeDecodeAscii(digits);
    assert |req.digits| == n;
    DigitsAreAscii(req.digits);
    var enc := [NumberTag, n as byte] + EncodeAscii(req.digits) + [NumberEnd] + req.line;
    assert body == [body[0], body[1]] + digits + [body[2 + n]] + body[3 + n..];
    assert enc == body;
    assert frame == frame[..4] + [frame[4]] + body;
  }
}
