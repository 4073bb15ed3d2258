/** The pure part of the client's workflow (main.py, lines 18-19, 62-122 and
    144-158): normalise the number, select the announcement frame from the
    websocket trace, extract the phone line from it, and build the call frame.
    Logging in, posting the query frames and posting the call frame are
    network I/O and not part of this model. */
module Dialer {
  import opened Wrappers
  import opened Bytes
  import opened NumberNormalization
  import opened PushSelection
  import opened PhoneLine
  import opened CallCommand

  /** Why no call frame is produced. */
  datatype DialError =
    | HandshakeMismatch(got: Msg)     // "Did not receive expected START from ws"
    | NoAnnouncement                  // the client would wait forever on the websocket
    | NoPhoneConfig                   // "Failed to get phone config"
    | LineNotAscii                    // a phone line outside this model (see README)
    | Encoding(cause: EncodeError)    // an exception while building the frame

  /** The first field of an announcement frame holds the marker, which
      contains no 0x1A, so that field never starts with `(sip:`. */
  lemma AnnouncementFieldIsNotSip(frame: seq<byte>)
    requires StartsWith(frame, PhoneAnnouncement)
    ensures !IsSipField(Fields(frame)[0])
  {
    TakeUntilIsFirstPiece(frame, FieldSeparator);
    TakeUntilKeepsPrefix(frame, PhoneAnnouncement, FieldSeparator);
    assert Fields(frame)[0][0] == 0x08;
  }

  /** `get_phone_config` without its I/O: the phone line announced on the
      websocket, or the reason the client stops. */
  function LocatePhoneLine(trace: seq<Msg>): (r: Result<seq<byte>, DialError>)
    ensures r.Err? && r.error.HandshakeMismatch? <==> |trace| > 0 && trace[0] != Text(Handshake)
    ensures r.Err? && r.error.HandshakeMismatch? ==> r.error.got == trace[0]
    ensures r == Err(NoAnnouncement) <==>
      || |trace| == 0
      || (trace[0] == Text(Handshake) && forall i :: 1 <= i < |trace| ==> !IsAnnouncement(trace[i]))
  {
    match Select(trace)
    case BadStart(got) => Err(HandshakeMismatch(got))
    case Blocked => Err(NoAnnouncement)
    case Selected(frame) =>
      match ExtractPhoneLine(frame)
      case None => Err(NoPhoneConfig)
      case Some(line) => Ok(line)
  }

  /** Once a frame is selected, the locator reports exactly what extraction
      from that frame gives: "Failed to get phone config" when extraction
      fails, and the extracted line otherwise. */
  lemma LocatedLineIsExtraction(trace: seq<Msg>)
    requires Select(trace).Selected?
    ensures LocatePhoneLine(trace) == Err(NoPhoneConfig) <==> ExtractPhoneLine(Select(trace).frame).None?
    ensures LocatePhoneLine(trace).Ok? <==> ExtractPhoneLine(Select(trace).frame).Some?
    ensures LocatePhoneLine(trace).Ok? ==>
      LocatePhoneLine(trace).value == ExtractPhoneLine(Select(trace).frame).value
  {
  }

  /** A located phone line starts with `(sip:`, holds neither a quote nor a
      field separator, and is a prefix of a field, other than the first, of
      the first marked binary message after the handshake. */
  lemma LocatedLineShape(trace: seq<Msg>)
    ensures LocatePhoneLine(trace).Ok? ==>
      && StartsWith(LocatePhoneLine(trace).value, SipPrefix)
      && Quote !in LocatePhoneLine(trace).value
      && FieldSeparator !in LocatePhoneLine(trace).value
      && exists i :: FirstAnnouncementAt(trace[1..], i)
                  && exists k :: 1 <= k < |Fields(trace[1..][i].data)|
                              && StartsWith(Fields(trace[1..][i].data)[k], LocatePhoneLine(trace).value)
  {
    var r := LocatePhoneLine(trace);
    if r.Ok? {
      var frame := Select(trace).frame;
      var line := r.value;
      ExtractedLineShape(frame);
      AnnouncementFieldIsNotSip(frame);
      var i :| FirstAnnouncementAt(trace[1..], i) && trace[i + 1] == Binary(frame);
      assert trace[1..][i].data == frame;
      var k :| LastSipFieldAt(Fields(frame), k) && line == LineOf(Fields(frame)[k]);
      assert k != 0;
      LineOfSipField(Fields(frame)[k]);
      assert StartsWith(Fields(frame)[k], line);
    }
  }

  /** The call frame the script posts for a raw destination number once the
      phone line is known (the script only gets here when
      `get_phone_config` returned). */
  function BuildCallFrame(number: string, line: seq<byte>): (r: Result<seq<byte>, DialError>)
    ensures r.Ok? <==>
      && IsAscii(line)
      && |Normalize(number)| < 0x80
      && 3 + |Normalize(number)| + |line| <= 0xFF
    ensures r.Ok? ==> Decode(r.value) == Some(DialRequest(Normalize(number), line))
    ensures r.Err? ==> r.error.LineNotAscii? || r.error.Encoding?
  {
    if !IsAscii(line) then Err(LineNotAscii)
    else
      var req := DialRequest(Normalize(number), line);
      match Encode(req)
      case Err(e) => Err(Encoding(e))
      case Ok(frame) =>
        DecodeEncode(req);
        Ok(frame)
  }

  /** The whole pure workflow: from the raw number and what the websocket
      delivered to the call frame, stopping at the first failure. */
  function Dial(number: string, trace: seq<Msg>): (r: Result<seq<byte>, DialError>)
    ensures LocatePhoneLine(trace).Err? ==> r == Err(LocatePhoneLine(trace).error)
    ensures r.Ok? <==>
      && LocatePhoneLine(trace).Ok?
      && IsAscii(LocatePhoneLine(trace).value)
      && |Normalize(number)| < 0x80
      && 3 + |Normalize(number)| + |LocatePhoneLine(trace).value| <= 0xFF
    ensures LocatePhoneLine(trace).Ok? && r.Err? ==> r.error.LineNotAscii? || r.error.Encoding?
    ensures r.Ok? ==>
      && LocatePhoneLine(trace).Ok?
      && Decode(r.value) == Some(DialRequest(Normalize(number), LocatePhoneLine(trace).value))
  {
    match LocatePhoneLine(trace)
    case Err(e) => Err(e)
    case Ok(line) => BuildCallFrame(number, line)
  }
}
