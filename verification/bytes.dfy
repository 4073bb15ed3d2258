/** Byte-string operations the client relies on: prefix tests, splitting on a
    separator byte (with the semantics of Python's `bytes.split(sep)`), and the
    ASCII view of text. */
module Bytes {

  /** An octet. */
  newtype byte = x: int | 0 <= x < 0x100

  /** True when `p` is a prefix of `s` (Python's `s.startswith(p)`). */
  predicate StartsWith(s: seq<byte>, p: seq<byte>)
  {
    |p| <= |s| && s[..|p|] == p
  }

  /** The pieces of `s` between occurrences of `sep`. Empty pieces are kept, so
      a string with k separators always has k + 1 pieces. */
  function Split(s: seq<byte>, sep: byte): (parts: seq<seq<byte>>)
    ensures |parts| >= 1
    ensures forall i :: 0 <= i < |parts| ==> sep !in parts[i]
    decreases |s|
  {
    if |s| == 0 then [[]]
    else
      var rest := Split(s[1..], sep);
      if s[0] == sep then [[]] + rest
      else [[s[0]] + rest[0]] + rest[1..]
  }

  /** The pieces glued back together with `sep` between neighbours. */
  function Join(parts: seq<seq<byte>>, sep: byte): seq<byte>
    requires |parts| >= 1
    decreases |parts|
  {
    if |parts| == 1 then parts[0]
    else parts[0] + [sep] + Join(parts[1..], sep)
  }

  /** Splitting loses nothing: joining the pieces again gives back the input. */
  lemma {:induction false} JoinSplit(s: seq<byte>, sep: byte)
    ensures Join(Split(s, sep), sep) == s
    decreases |s|
  {
    if |s| > 0 {
      var rest := Split(s[1..], sep);
      JoinSplit(s[1..], sep);
      if s[0] == sep {
        assert Split(s, sep) == [[]] + rest;
        assert s == [] + [sep] + s[1..];
      } else if |rest| == 1 {
        assert Split(s, sep) == [[s[0]] + rest[0]];
        assert s == [s[0]] + s[1..];
      } else {
        var parts := Split(s, sep);
        assert parts == [[s[0]] + rest[0]] + rest[1..];
        assert parts[1..] == rest[1..];
        assert Join(rest, sep) == rest[0] + [sep] + Join(rest[1..], sep);
        assert s == [s[0]] + s[1..];
      }
    }
  }

  /** A separator-free prefix is absorbed into the first piece. */
  lemma {:induction false} SplitSeparatorFreePrefix(p: seq<byte>, t: seq<byte>, sep: byte)
    requires sep !in p
    ensures Split(p + t, sep) == [p + Split(t, sep)[0]] + Split(t, sep)[1..]
    decreases |p|
  {
    if |p| > 0 {
      var s := p + t;
      assert s[0] == p[0] && s[0] != sep;
      assert s[1..] == p[1..] + t;
      SplitSeparatorFreePrefix(p[1..], t, sep);
      var rest := Split(s[1..], sep);
      assert Split(s, sep) == [[s[0]] + rest[0]] + rest[1..];
      assert [p[0]] + (p[1..] + Split(t, sep)[0]) == p + Split(t, sep)[0];
    } else {
      var parts := Split(t, sep);
      assert p + t == t && p + parts[0] == parts[0];
      assert parts == [parts[0]] + parts[1..];
    }
  }

  /** Splitting undoes joining whenever no piece contains the separator, so
      `Split` and `Join` are mutually inverse. */
  lemma {:induction false} SplitJoin(parts: seq<seq<byte>>, sep: byte)
    requires |parts| >= 1
    requires forall i :: 0 <= i < |parts| ==> sep !in parts[i]
    ensures Split(Join(parts, sep), sep) == parts
    decreases |parts|
  {
    if |parts| == 1 {
      SplitSeparatorFreePrefix(parts[0], [], sep);
      assert parts[0] + [] == parts[0];
    } else {
      var tail := Join(parts[1..], sep);
      SplitJoin(parts[1..], sep);
      assert Split([sep] + tail, sep) == [[]] + parts[1..];
      SplitSeparatorFreePrefix(parts[0], [sep] + tail, sep);
      assert parts[0] + [sep] + tail == parts[0] + ([sep] + tail);
      assert parts[0] + [] == parts[0];
      assert parts == [parts[0]] + parts[1..];
    }
  }

  /** The longest prefix of `s` that does not contain `stop`
      (Python's `s.split(stop)[0]`, see `TakeUntilIsFirstPiece`). */
  function TakeUntil(s: seq<byte>, stop: byte): (r: seq<byte>)
    ensures |r| <= |s| && r == s[..|r|]
    ensures stop !in r
    ensures |r| < |s| ==> s[|r|] == stop
    decreases |s|
  {
    if |s| == 0 || s[0] == stop then []
    else [s[0]] + TakeUntil(s[1..], stop)
  }

  /** `TakeUntil` is exactly the first piece of a split. */
  lemma {:induction false} TakeUntilIsFirstPiece(s: seq<byte>, stop: byte)
    ensures TakeUntil(s, stop) == Split(s, stop)[0]
    decreases |s|
  {
    if |s| > 0 && s[0] != stop {
      TakeUntilIsFirstPiece(s[1..], stop);
    }
  }

  /** A prefix free of `stop` survives truncation at the first `stop`. */
  lemma TakeUntilKeepsPrefix(s: seq<byte>, p: seq<byte>, stop: byte)
    requires StartsWith(s, p)
    requires stop !in p
    ensures StartsWith(TakeUntil(s, stop), p)
  {
  }

  /** Truncation stops exactly at the first `stop`. */
  lemma TakeUntilFirst(s: seq<byte>, k: nat, stop: byte)
    requires k < |s| && s[k] == stop
    requires stop !in s[..k]
    ensures TakeUntil(s, stop) == s[..k]
  {
  }

  /** Every byte is below 0x80, so each byte is one character of text. */
  predicate IsAscii(s: seq<byte>)
  {
    forall i :: 0 <= i < |s| ==> s[i] < 0x80
  }

  /** Every character is in the ASCII range. */
  predicate IsAsciiText(s: string)
  {
    forall i :: 0 <= i < |s| ==> s[i] as int < 0x80
  }

  /** The bytes of an ASCII string (its UTF-8 encoding, which for ASCII is one
      byte per character). */
  function EncodeAscii(s: string): (r: seq<byte>)
    requires IsAsciiText(s)
    ensures |r| == |s|
    ensures forall i :: 0 <= i < |s| ==> r[i] as int == s[i] as int
    ensures IsAscii(r)
  {
    seq(|s|, i requires 0 <= i < |s| => s[i] as int as byte)
  }

  /** The text of ASCII bytes (their UTF-8 decoding). */
  function DecodeAscii(b: seq<byte>): (r: string)
    requires IsAscii(b)
    ensures |r| == |b|
    ensures forall i :: 0 <= i < |b| ==> r[i] as int == b[i] as int
    ensures IsAsciiText(r)
  {
    seq(|b|, i requires 0 <= i < |b| => b[i] as int as char)
  }

  /** Decoding inverts encoding. */
  lemma DecodeEncodeAscii(s: string)
    requires IsAsciiText(s)
    ensures DecodeAscii(EncodeAscii(s)) == s
  {
    var r := DecodeAscii(EncodeAscii(s));
    assert forall i :: 0 <= i < |s| ==> r[i] as int == s[i] as int;
  }

  /** Encoding inverts decoding. */
  lemma EncodeDecodeAscii(b: seq<byte>)
    requires IsAscii(b)
    ensures EncodeAscii(DecodeAscii(b)) == b
  {
    var r := EncodeAscii(DecodeAscii(b));
    assert forall i :: 0 <= i < |b| ==> r[i] as int == b[i] as int;
  }
}
