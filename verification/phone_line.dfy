/** Extraction of the phone-line identifier from the announcement frame
    (main.py, lines 116-122), over bytes: the frame is split on 0x1A, every
    piece that starts with `(sip:` is cut at its first `"`, and the piece seen
    last wins. */
module PhoneLine {
  import opened Wrappers
  import opened Bytes

  /** The field separator of the binary sub-protocol. */
  const FieldSeparator: byte := 0x1A

  /** The ASCII double quote that ends the identifier inside its field. */
  const Quote: byte := 0x22

  /** The bytes of `(sip:`. */
  const SipPrefix: seq<byte> := [0x28, 0x73, 0x69, 0x70, 0x3A]

  /** A field that carries a phone-line identifier. */
  predicate IsSipField(field: seq<byte>)
  {
    StartsWith(field, SipPrefix)
  }

  /** The identifier carried by a field: everything before its first quote. */
  function LineOf(field: seq<byte>): seq<byte>
  {
    TakeUntil(field, Quote)
  }

  /** The identifier of a `(sip:` field still starts with `(sip:`, and is
      exactly what the source's `split(b'"')[0]` keeps. */
  lemma LineOfSipField(field: seq<byte>)
    requires IsSipField(field)
    ensures StartsWith(LineOf(field), SipPrefix)
    ensures LineOf(field) == Split(field, Quote)[0]
  {
    TakeUntilKeepsPrefix(field, SipPrefix, Quote);
    TakeUntilIsFirstPiece(field, Quote);
  }

  /** `fields[i]` is a `(sip:` field and no later field is. */
  predicate LastSipFieldAt(fields: seq<seq<byte>>, i: int)
  {
    && 0 <= i < |fields|
    && IsSipField(fields[i])
    && forall j :: i < j < |fields| ==> !IsSipField(fields[j])
  }

  /** The identifier of the last `(sip:` field, if any. */
  function LastSipLine(fields: seq<seq<byte>>): (r: Option<seq<byte>>)
    ensures r.None? <==> forall i :: 0 <= i < |fields| ==> !IsSipField(fields[i])
    ensures r.Some? ==> exists i :: LastSipFieldAt(fields, i) && r.value == LineOf(fields[i])
    decreases |fields|
  {
    if |fields| == 0 then None
    else
      var n := |fields| - 1;
      if IsSipField(fields[n]) then
        assert LastSipFieldAt(fields, n);
        Some(LineOf(fields[n]))
      else
        var init := fields[..n];
        var r := LastSipLine(init);
        if r.Some? then
          var i :| LastSipFieldAt(init, i) && r.value == LineOf(init[i]);
          assert init[i] == fields[i];
          forall j | i < j < |fields|
            ensures !IsSipField(fields[j])
          {
            if j < n {
              assert init[j] == fields[j];
            }
          }
          assert LastSipFieldAt(fields, i);
          r
        else
          forall j | 0 <= j < |fields|
            ensures !IsSipField(fields[j])
          {
            if j < n {
              assert init[j] == fields[j];
            }
          }
          r
  }

  /** The 0x1A-separated fields of a frame. */
  function Fields(frame: seq<byte>): seq<seq<byte>>
  {
    Split(frame, FieldSeparator)
  }

  /** The identifier of the last `(sip:` field itself starts with `(sip:`. */
  lemma LastSipLineStartsWithSip(fields: seq<seq<byte>>)
    requires LastSipLine(fields).Some?
    ensures StartsWith(LastSipLine(fields).value, SipPrefix)
  {
  }

  /** The phone-line identifier the client extracts from a frame, or `None`
      where the client raises "Failed to get phone config". */
  function ExtractPhoneLine(frame: seq<byte>): (r: Option<seq<byte>>)
    ensures r.None? <==>
      forall i :: 0 <= i < |Fields(frame)| ==> !IsSipField(Fields(frame)[i])
    ensures r.Some? ==>
      exists i :: LastSipFieldAt(Fields(frame), i)
               && r.value == LineOf(Fields(frame)[i])
  {
    var fields := Fields(frame);
    var local := LastSipLine(fields);
    if local.None? then None
    else
      LastSipLineStartsWithSip(fields);
      // The client's `if not phone_config_local` check: unreachable here, since
      // the identifier starts with the five bytes of `(sip:`.
      if |local.value| == 0 then None else local
  }

  /** The last `(sip:` field is the one whose identifier is extracted. */
  lemma ExtractsLastSipField(frame: seq<byte>, i: int)
    requires LastSipFieldAt(Fields(frame), i)
    ensures ExtractPhoneLine(frame) == Some(LineOf(Fields(frame)[i]))
  {
  }

  /** What a successful extraction looks like: it starts with `(sip:`, holds
      neither a quote nor a field separator, and is a prefix of one of the
      0x1A-separated fields of the frame. */
  lemma ExtractedLineShape(frame: seq<byte>)
    ensures ExtractPhoneLine(frame).Some? ==>
      && StartsWith(ExtractPhoneLine(frame).value, SipPrefix)
      && Quote !in ExtractPhoneLine(frame).value
      && FieldSeparator !in ExtractPhoneLine(frame).value
      && exists i :: 0 <= i < |Fields(frame)|
                  && StartsWith(Fields(frame)[i], ExtractPhoneLine(frame).value)
  {
    if ExtractPhoneLine(frame).None? {
      return;
    }
    var fields := Fields(frame);
    var line := ExtractPhoneLine(frame).value;
    var i :| LastSipFieldAt(fields, i) && line == LineOf(fields[i]);
    LineOfSipField(fields[i]);
    assert FieldSeparator !in fields[i];
    assert StartsWith(fields[i], line);
  }

  /** The loop of the client: walk over the fields, overwriting the result at
      every `(sip:` field, and fail when nothing was found. */
  method ParsePhoneConfig(frame: seq<byte>) returns (r: Option<seq<byte>>)
    ensures r == ExtractPhoneLine(frame)
    ensures r.Some? ==> StartsWith(r.value, SipPrefix) && Quote !in r.value
  {
    var fields := Fields(frame);
    var local: Option<seq<byte>> := None;
    for k := 0 to |fields|
      invariant local == LastSipLine(fields[..k])
    {
      if StartsWith(fields[k], SipPrefix) {
        local := Some(TakeUntil(fields[k], Quote));
      } else {
        assert fields[..k + 1][..k] == fields[..k];
      }
    }
    assert fields[..|fields|] == fields;
    if local.None? || |local.value| == 0 {
      return None;
    }
    r := local;
    ExtractedLineShape(frame);
  }
}
