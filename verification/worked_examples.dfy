/** What the model does with concrete frames and traces. */
module WorkedExamples {
  import opened Wrappers
  import opened Bytes
  import opened NumberNormalization
  import opened PushSelection
  import opened PhoneLine
  import opened CallCommand
  import opened Dialer

  /** A frame with two field separators has three fields. */
  lemma ThreeFields(f0: seq<byte>, f1: seq<byte>, f2: seq<byte>)
    requires FieldSeparator !in f0 && FieldSeparator !in f1 && FieldSeparator !in f2
    ensures Fields(f0 + [FieldSeparator] + f1 + [FieldSeparator] + f2) == [f0, f1, f2]
  {
    assert [f0, f1, f2][1..] == [f1, f2] && [f1, f2][1..] == [f2];
    assert Join([f1, f2], FieldSeparator) == f1 + [FieldSeparator] + f2;
    assert f0 + [FieldSeparator] + f1 + [FieldSeparator] + f2
        == f0 + [FieldSeparator] + (f1 + [FieldSeparator] + f2);
    SplitJoin([f0, f1, f2], FieldSeparator);
  }

  /** The identifier is cut at its quote, and the fields around it are
      ignored: for a frame laid out as
      `head 1A (sip: id " tail 1A trailer`, the extracted line is `(sip: id`. */
  lemma QuotedLineExtracted(head: seq<byte>, id: seq<byte>, tail: seq<byte>, trailer: seq<byte>)
    requires FieldSeparator !in head && FieldSeparator !in id
    requires FieldSeparator !in tail && FieldSeparator !in trailer
    requires Quote !in id
    requires !IsSipField(trailer)
    ensures ExtractPhoneLine(head + [FieldSeparator] + SipPrefix + id + [Quote] + tail
                             + [FieldSeparator] + trailer)
            == Some(SipPrefix + id)
  {
    var field := SipPrefix + id + [Quote] + tail;
    assert FieldSeparator !in field;
    ThreeFields(head, field, trailer);
    assert head + [FieldSeparator] + SipPrefix + id + [Quote] + tail + [FieldSeparator] + trailer
        == head + [FieldSeparator] + field + [FieldSeparator] + trailer;
    assert field[..5] == SipPrefix;
    assert LastSipFieldAt([head, field, trailer], 1);
    ExtractsLastSipField(head + [FieldSeparator] + field + [FieldSeparator] + trailer, 1);
    assert field[..|SipPrefix + id|] == SipPrefix + id;
    TakeUntilFirst(field, |SipPrefix + id|, Quote);
  }

  /** The bytes of `(sip:X"`. */
  const QuotedX: seq<byte> := SipPrefix + [0x58, Quote]

  /** A marked frame without any field separator has a single field, which
      starts with the marker and so never with `(sip:`: no phone line is
      found, whatever follows the marker. */
  lemma UnseparatedAnnouncementHasNoLine(frame: seq<byte>)
    requires StartsWith(frame, PhoneAnnouncement)
    requires FieldSeparator !in frame
    ensures ExtractPhoneLine(frame).None?
  {
    SplitJoin([frame], FieldSeparator);
    AnnouncementFieldIsNotSip(frame);
  }

  /** A trace in which the identifier follows the marker directly: the client
      skips the text and the unmarked binary message and selects the marked
      one, but that frame has a single field, which starts with the marker, so
      no phone line is found. */
  lemma MarkerFieldExample()
    ensures LocatePhoneLine([
              Text("START"), Text("hello"), Binary([0x00, 0x01]),
              Binary(PhoneAnnouncement + QuotedX), Text("trailer")])
            == Err(NoPhoneConfig)
  {
    var frame := PhoneAnnouncement + QuotedX;
    var trace := [Text("START"), Text("hello"), Binary([0x00, 0x01]), Binary(frame), Text("trailer")];
    assert trace[1..][2] == Binary(frame) && IsAnnouncement(trace[1..][2]);
    assert FirstAnnouncementAt(trace[1..], 2);
    FirstAnnouncementUnique(trace[1..], 2);
    assert frame[..5] == PhoneAnnouncement;
    assert FieldSeparator !in PhoneAnnouncement && FieldSeparator !in QuotedX;
    UnseparatedAnnouncementHasNoLine(frame);
  }

  /** A field separator right after the marker puts the identifier in a
      field of its own. */
  lemma SeparatedFrameExample()
    ensures ExtractPhoneLine(PhoneAnnouncement + [FieldSeparator] + QuotedX)
            == Some(SipPrefix + [0x58])
  {
    var frame := PhoneAnnouncement + [FieldSeparator] + QuotedX;
    assert [PhoneAnnouncement, QuotedX][1..] == [QuotedX];
    assert Join([PhoneAnnouncement, QuotedX], FieldSeparator) == frame;
    SplitJoin([PhoneAnnouncement, QuotedX], FieldSeparator);
    assert QuotedX[..5] == SipPrefix;
    TakeUntilFirst(QuotedX, 6, Quote);
    assert LastSipFieldAt(Fields(frame), 1);
    assert QuotedX[..6] == SipPrefix + [0x58];
  }

  /** The trace of `MarkerFieldExample` with that separator yields the
      identifier. */
  lemma SeparatedFieldExample()
    ensures LocatePhoneLine([
              Text("START"), Text("hello"), Binary([0x00, 0x01]),
              Binary(PhoneAnnouncement + [FieldSeparator] + QuotedX), Text("trailer")])
            == Ok(SipPrefix + [0x58])
  {
    var frame := PhoneAnnouncement + [FieldSeparator] + QuotedX;
    var trace := [Text("START"), Text("hello"), Binary([0x00, 0x01]), Binary(frame), Text("trailer")];
    assert trace[1..][2] == Binary(frame) && IsAnnouncement(trace[1..][2]);
    assert FirstAnnouncementAt(trace[1..], 2);
    FirstAnnouncementUnique(trace[1..], 2);
    SeparatedFrameExample();
  }

  /** Dialling 12345 from line `(sip:10.0.0.5:5060;line=1`: the body is 33
      bytes long, the digit count is 5, and the frame decodes to the request. */
  lemma CallFrameExample()
    ensures var req := DialRequest("12345", EncodeAscii("(sip:10.0.0.5:5060;line=1"));
      && WellFormed(req)
      && Encode(req).Ok?
      && |Encode(req).value| == 38
      && Encode(req).value[4] == 33
      && Encode(req).value[6] == 5
      && Decode(Encode(req).value) == Some(req)
  {
    var req := DialRequest("12345", EncodeAscii("(sip:10.0.0.5:5060;line=1"));
    assert IsDigits(req.digits);
    CallFrameLayout(req);
    DecodeEncode(req);
  }
}
