/** Selection of the phone-announcement push frame from the websocket
    (main.py, lines 73-75 and 105-114). The websocket is modelled as the finite
    trace of messages it delivers; running out of messages stands for the real
    client waiting forever on `recv()`. */
module PushSelection {
  import opened Wrappers
  import opened Bytes

  /** One websocket message: the PBX sends both text and binary messages. */
  datatype Msg = Text(text: string) | Binary(data: seq<byte>)

  /** The readiness message that must arrive first. */
  const Handshake: string := "START"

  /** The first five bytes of the push frame that announces the phone
      configuration. */
  const PhoneAnnouncement: seq<byte> := [0x08, 0xC9, 0x01, 0xCA, 0x0C]

  /** The seven query frames posted, in this order, before the announcement is
      awaited. They are opaque protocol constants; posting them is network I/O
      and not part of this model. */
  const QueryFrames: seq<seq<byte>> := [
    [0x08, 0x7A, 0xD2, 0x07, 0x00],
    [0x08, 0x66, 0xB2, 0x06, 0x00],
    [0x08, 0x83, 0x01, 0x9A, 0x08, 0x00],
    [0x08, 0xF4, 0x03, 0xA2, 0x1F, 0x00],
    [0x08, 0x68, 0xC2, 0x06, 0x0E, 0x10, 0x00, 0x18, 0x01, 0x20, 0x00, 0x40, 0x00,
     0x48, 0x00, 0x50, 0x00, 0x58, 0x20],
    [0x08, 0x80, 0x01, 0x82, 0x08, 0x02, 0x08, 0x04],
    [0x08, 0xA5, 0x01, 0xAA, 0x0A, 0x00]
  ]

  /** A binary message that starts with the announcement marker. */
  predicate IsAnnouncement(m: Msg)
  {
    m.Binary? && StartsWith(m.data, PhoneAnnouncement)
  }

  /** `msgs[i]` is an announcement and nothing before it is. */
  predicate FirstAnnouncementAt(msgs: seq<Msg>, i: int)
  {
    && 0 <= i < |msgs|
    && IsAnnouncement(msgs[i])
    && forall j :: 0 <= j < i ==> !IsAnnouncement(msgs[j])
  }

  /** The payload of the first announcement in `msgs`, if there is one. */
  function FirstAnnouncement(msgs: seq<Msg>): (r: Option<seq<byte>>)
    ensures r.None? <==> forall i :: 0 <= i < |msgs| ==> !IsAnnouncement(msgs[i])
    ensures r.Some? ==> exists i :: FirstAnnouncementAt(msgs, i) && msgs[i].data == r.value
    decreases |msgs|
  {
    if |msgs| == 0 then None
    else if IsAnnouncement(msgs[0]) then
      assert FirstAnnouncementAt(msgs, 0);
      Some(msgs[0].data)
    else
      var r := FirstAnnouncement(msgs[1..]);
      assert forall i :: 1 <= i < |msgs| ==> msgs[i] == msgs[1..][i - 1];
      if r.Some? then
        var i :| FirstAnnouncementAt(msgs[1..], i) && msgs[1..][i].data == r.value;
        assert FirstAnnouncementAt(msgs, i + 1);
        r
      else r
  }

  /** The three ways the wait for the announcement can end. */
  datatype Selection =
    | BadStart(got: Msg)          // the first message was not "START": the client raises
    | Blocked                     // no announcement arrived: the client would wait forever
    | Selected(frame: seq<byte>)   // the payload of the first announcement

  /** The push frame the client goes on to parse, as a function of the whole
      websocket trace. */
  function Select(trace: seq<Msg>): (r: Selection)
    ensures r.BadStart? <==> |trace| > 0 && trace[0] != Text(Handshake)
    ensures r.BadStart? ==> r.got == trace[0]
    ensures r.Blocked? <==>
      || |trace| == 0
      || (trace[0] == Text(Handshake) && forall i :: 1 <= i < |trace| ==> !IsAnnouncement(trace[i]))
    ensures r.Selected? ==>
      && trace[0] == Text(Handshake)
      && StartsWith(r.frame, PhoneAnnouncement)
      && exists i :: FirstAnnouncementAt(trace[1..], i) && trace[i + 1] == Binary(r.frame)
  {
    if |trace| == 0 then Blocked
    else if trace[0] != Text(Handshake) then BadStart(trace[0])
    else
      assert forall i :: 1 <= i < |trace| ==> trace[i] == trace[1..][i - 1];
      match FirstAnnouncement(trace[1..])
      case None => Blocked
      case Some(frame) => Selected(frame)
  }

  /** The receive loop as the client runs it: check the handshake, then read
      messages, skipping text and any binary message without the marker. */
  method AwaitAnnouncement(trace: seq<Msg>) returns (r: Selection)
    ensures r == Select(trace)
    ensures r.Selected? ==> exists i :: 1 <= i < |trace| && trace[i] == Binary(r.frame)
  {
    if |trace| == 0 {
      return Blocked;
    }
    if trace[0] != Text(Handshake) {
      return BadStart(trace[0]);
    }
    var i := 1;
    while i < |trace|
      invariant 1 <= i <= |trace|
      invariant forall j :: 1 <= j < i ==> !IsAnnouncement(trace[j])
    {
      var m := trace[i];
      if m.Text? {
        i := i + 1;
        continue;
      }
      if StartsWith(m.data, PhoneAnnouncement) {
        assert FirstAnnouncementAt(trace[1..], i - 1);
        FirstAnnouncementUnique(trace[1..], i - 1);
        return Selected(m.data);
      }
      i := i + 1;
    }
    return Blocked;
  }

  /** There is only one first announcement. */
  lemma FirstAnnouncementUnique(msgs: seq<Msg>, i: int)
    requires FirstAnnouncementAt(msgs, i)
    ensures FirstAnnouncement(msgs) == Some(msgs[i].data)
  {
    var r := FirstAnnouncement(msgs);
    var k :| FirstAnnouncementAt(msgs, k) && msgs[k].data == r.value;
    assert k == i;
  }

  /** A message that is not an announcement does not change the first
      announcement, wherever it is inserted. */
  lemma {:induction false} FirstAnnouncementSkips(a: seq<Msg>, m: Msg, b: seq<Msg>)
    requires !IsAnnouncement(m)
    ensures FirstAnnouncement(a + [m] + b) == FirstAnnouncement(a + b)
    decreases |a|
  {
    if |a| == 0 {
      assert a + [m] + b == [m] + b;
      assert ([m] + b)[1..] == b;
      assert a + b == b;
    } else {
      assert (a + [m] + b)[0] == a[0] && (a + b)[0] == a[0];
      assert (a + [m] + b)[1..] == a[1..] + [m] + b;
      assert (a + b)[1..] == a[1..] + b;
      FirstAnnouncementSkips(a[1..], m, b);
    }
  }

  /** Text messages and binary messages without the marker are ignored:
      inserting one anywhere after the handshake leaves the selection as it was. */
  lemma IgnoresNonAnnouncements(trace: seq<Msg>, k: nat, m: Msg)
    requires 1 <= k <= |trace|
    requires !IsAnnouncement(m)
    ensures Select(trace[..k] + [m] + trace[k..]) == Select(trace)
  {
    var t := trace[..k] + [m] + trace[k..];
    assert t[0] == trace[0];
    assert t[1..] == trace[1..k] + [m] + trace[k..];
    assert trace[1..] == trace[1..k] + trace[k..];
    FirstAnnouncementSkips(trace[1..k], m, trace[k..]);
  }

  /** The first announcement wins: messages arriving after it change nothing. */
  lemma {:induction false} FirstAnnouncementStable(a: seq<Msg>, b: seq<Msg>)
    requires FirstAnnouncement(a).Some?
    ensures FirstAnnouncement(a + b) == FirstAnnouncement(a)
    decreases |a|
  {
    assert (a + b)[0] == a[0];
    if !IsAnnouncement(a[0]) {
      assert (a + b)[1..] == a[1..] + b;
      FirstAnnouncementStable(a[1..], b);
    }
  }

  /** Once a frame has been selected, later messages cannot change it. */
  lemma SelectionStable(trace: seq<Msg>, later: seq<Msg>)
    requires Select(trace).Selected?
    ensures Select(trace + later) == Select(trace)
  {
    assert (trace + later)[0] == trace[0];
    assert (trace + later)[1..] == trace[1..] + later;
    FirstAnnouncementStable(trace[1..], later);
  }
}
