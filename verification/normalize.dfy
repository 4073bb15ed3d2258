/** The destination-number normaliser (main.py, lines 18-19): the command-line
    argument is stripped of surrounding whitespace, every `+` is replaced by
    `00`, and then every character that is not a digit is dropped. */
module NumberNormalization {

  /** An ASCII decimal digit. */
  predicate IsDigit(c: char)
  {
    '0' <= c <= '9'
  }

  /** A string made of ASCII decimal digits only. */
  predicate IsDigits(s: string)
  {
    forall i :: 0 <= i < |s| ==> IsDigit(s[i])
  }

  /** The characters Python's `str.strip()` removes: those `str.isspace()`
      accepts. */
  predicate IsSpace(c: char)
  {
    || '\t' <= c <= '\r'
    || '\U{1C}' <= c <= '\U{20}'
    || c == '\U{85}' || c == '\U{A0}' || c == '\U{1680}'
    || '\U{2000}' <= c <= '\U{200A}'
    || c == '\U{2028}' || c == '\U{2029}' || c == '\U{202F}'
    || c == '\U{205F}' || c == '\U{3000}'
  }

  /** `s` without its leading whitespace. */
  function TrimStart(s: string): string
    decreases |s|
  {
    if |s| > 0 && IsSpace(s[0]) then TrimStart(s[1..]) else s
  }

  /** `s` without its trailing whitespace. */
  function TrimEnd(s: string): string
    decreases |s|
  {
    if |s| > 0 && IsSpace(s[|s| - 1]) then TrimEnd(s[..|s| - 1]) else s
  }

  /** Trimming the start removes exactly the leading run of whitespace. */
  lemma {:induction false} TrimStartRemovesLeadingSpace(s: string)
    ensures |TrimStart(s)| <= |s| && TrimStart(s) == s[|s| - |TrimStart(s)|..]
    ensures forall i :: 0 <= i < |s| - |TrimStart(s)| ==> IsSpace(s[i])
    ensures |TrimStart(s)| > 0 ==> !IsSpace(TrimStart(s)[0])
    decreases |s|
  {
    if |s| > 0 && IsSpace(s[0]) {
      TrimStartRemovesLeadingSpace(s[1..]);
    }
  }

  /** Trimming the end removes exactly the trailing run of whitespace. */
  lemma {:induction false} TrimEndRemovesTrailingSpace(s: string)
    ensures |TrimEnd(s)| <= |s| && TrimEnd(s) == s[..|TrimEnd(s)|]
    ensures forall i :: |TrimEnd(s)| <= i < |s| ==> IsSpace(s[i])
    ensures |TrimEnd(s)| > 0 ==> !IsSpace(TrimEnd(s)[|TrimEnd(s)| - 1])
    decreases |s|
  {
    if |s| > 0 && IsSpace(s[|s| - 1]) {
      TrimEndRemovesTrailingSpace(s[..|s| - 1]);
    }
  }

  /** `r` is the part of `s` starting at `lo`, and everything of `s` before
      and after it is whitespace. */
  predicate CutFromSpace(s: string, r: string, lo: int)
  {
    && 0 <= lo <= |s| - |r|
    && r == s[lo..lo + |r|]
    && (forall i :: 0 <= i < lo ==> IsSpace(s[i]))
    && (forall i :: lo + |r| <= i < |s| ==> IsSpace(s[i]))
  }

  /** Cutting a whitespace-only prefix and then a whitespace-only suffix cuts
      whitespace from both ends. */
  lemma CutBothEnds(s: string, t: string, r: string)
    requires |t| <= |s| && t == s[|s| - |t|..]
    requires forall i :: 0 <= i < |s| - |t| ==> IsSpace(s[i])
    requires |r| <= |t| && r == t[..|r|]
    requires forall i :: |r| <= i < |t| ==> IsSpace(t[i])
    ensures CutFromSpace(s, r, |s| - |t|)
  {
    var lo := |s| - |t|;
    forall i | lo + |r| <= i < |s|
      ensures IsSpace(s[i])
    {
      assert s[i] == t[i - lo];
    }
  }

  /** Python's `s.strip()`: a contiguous part of `s` that neither starts nor
      ends with whitespace, everything cut away on either side being
      whitespace. */
  function Strip(s: string): (r: string)
    ensures exists lo :: CutFromSpace(s, r, lo)
    ensures |r| > 0 ==> !IsSpace(r[0]) && !IsSpace(r[|r| - 1])
  {
    var t := TrimStart(s);
    TrimStartRemovesLeadingSpace(s);
    TrimEndRemovesTrailingSpace(t);
    CutBothEnds(s, t, TrimEnd(t));
    TrimEnd(t)
  }

  /** Python's `s.replace("+", "00")`: every `+`, wherever it stands. */
  function ReplacePlus(s: string): (r: string)
    ensures '+' !in r
    decreases |s|
  {
    if |s| == 0 then ""
    else (if s[0] == '+' then "00" else [s[0]]) + ReplacePlus(s[1..])
  }

  /** The digits of `s`, in order (the list comprehension of line 19). */
  function KeepDigits(s: string): (r: string)
    ensures IsDigits(r)
    ensures |r| <= |s|
    decreases |s|
  {
    if |s| == 0 then ""
    else (if IsDigit(s[0]) then [s[0]] else "") + KeepDigits(s[1..])
  }

  /** Without a `+` there is nothing to replace. */
  lemma {:induction false} ReplacePlusWithoutPlus(s: string)
    requires '+' !in s
    ensures ReplacePlus(s) == s
    decreases |s|
  {
    if |s| > 0 {
      assert s[0] != '+';
      ReplacePlusWithoutPlus(s[1..]);
      assert s == [s[0]] + s[1..];
    }
  }

  /** The replacement works on each part of a concatenation separately. */
  lemma {:induction false} ReplacePlusAppend(a: string, b: string)
    ensures ReplacePlus(a + b) == ReplacePlus(a) + ReplacePlus(b)
    decreases |a|
  {
    if |a| > 0 {
      assert (a + b)[0] == a[0];
      assert (a + b)[1..] == a[1..] + b;
      ReplacePlusAppend(a[1..], b);
    } else {
      assert a + b == b;
    }
  }

  /** A `+` becomes `00`, and any other character is kept as it is. */
  lemma ReplacePlusChar(c: char)
    ensures ReplacePlus([c]) == (if c == '+' then "00" else [c])
  {
  }

  /** The filter keeps every digit of its input, adds no character, and leaves
      an all-digit string as it is. */
  lemma {:induction false} KeepDigitsKeepsDigits(s: string)
    ensures forall c :: c in s && IsDigit(c) ==> c in KeepDigits(s)
    ensures forall c :: c in KeepDigits(s) ==> c in s
    ensures IsDigits(s) ==> KeepDigits(s) == s
    decreases |s|
  {
    if |s| > 0 {
      KeepDigitsKeepsDigits(s[1..]);
      assert s == [s[0]] + s[1..];
      assert forall c :: c in s ==> c == s[0] || c in s[1..];
    }
  }

  /** The number as the client dials it. */
  function Normalize(raw: string): (r: string)
    ensures IsDigits(r)
  {
    KeepDigits(ReplacePlus(Strip(raw)))
  }

  // A reference definition, one character at a time.

  /** What one input character contributes to the normalised number. */
  function CharImage(c: char): string
  {
    if c == '+' then "00" else if IsDigit(c) then [c] else ""
  }

  /** The concatenation of the images of the characters of `s`. */
  function Charwise(s: string): string
    decreases |s|
  {
    if |s| == 0 then "" else CharImage(s[0]) + Charwise(s[1..])
  }

  /** The per-character map preserves order: it distributes over concatenation. */
  lemma {:induction false} CharwiseAppend(a: string, b: string)
    ensures Charwise(a + b) == Charwise(a) + Charwise(b)
    decreases |a|
  {
    if |a| > 0 {
      assert (a + b)[1..] == a[1..] + b;
      CharwiseAppend(a[1..], b);
    } else {
      assert a + b == b;
    }
  }

  /** Filtering digits distributes over concatenation. */
  lemma {:induction false} KeepDigitsAppend(a: string, b: string)
    ensures KeepDigits(a + b) == KeepDigits(a) + KeepDigits(b)
    decreases |a|
  {
    if |a| > 0 {
      var head := if IsDigit(a[0]) then [a[0]] else "";
      assert (a + b)[0] == a[0];
      assert (a + b)[1..] == a[1..] + b;
      assert KeepDigits(a + b) == head + KeepDigits(a[1..] + b);
      KeepDigitsAppend(a[1..], b);
      assert KeepDigits(a) == head + KeepDigits(a[1..]);
    } else {
      assert a + b == b;
    }
  }

  /** Replacing `+` and then keeping the digits is the per-character map. */
  lemma {:induction false} ReplaceThenKeepIsCharwise(s: string)
    ensures KeepDigits(ReplacePlus(s)) == Charwise(s)
    decreases |s|
  {
    if |s| > 0 {
      var head := if s[0] == '+' then "00" else [s[0]];
      KeepDigitsAppend(head, ReplacePlus(s[1..]));
      ReplaceThenKeepIsCharwise(s[1..]);
      assert KeepDigits(head) == CharImage(s[0]) by {
        if s[0] == '+' {
          assert head == ['0'] + ['0'];
          assert KeepDigits(head) == ['0'] + KeepDigits(['0']);
        } else {
          assert head[1..] == [];
        }
      }
    }
  }

  /** Leading whitespace contributes nothing to the per-character map. */
  lemma {:induction false} TrimStartImmaterial(s: string)
    ensures Charwise(TrimStart(s)) == Charwise(s)
    decreases |s|
  {
    if |s| > 0 && IsSpace(s[0]) {
      TrimStartImmaterial(s[1..]);
    }
  }

  /** Trailing whitespace contributes nothing to the per-character map. */
  lemma {:induction false} TrimEndImmaterial(s: string)
    ensures Charwise(TrimEnd(s)) == Charwise(s)
    decreases |s|
  {
    if |s| > 0 && IsSpace(s[|s| - 1]) {
      var init := s[..|s| - 1];
      TrimEndImmaterial(init);
      assert s == init + [s[|s| - 1]];
      CharwiseAppend(init, [s[|s| - 1]]);
    }
  }

  /** The normaliser is the per-character map: `+` becomes `00`, a digit stays,
      anything else (surrounding whitespace included) vanishes. */
  lemma NormalizeIsCharwise(raw: string)
    ensures Normalize(raw) == Charwise(raw)
  {
    TrimStartImmaterial(raw);
    TrimEndImmaterial(TrimStart(raw));
    ReplaceThenKeepIsCharwise(Strip(raw));
  }

  /** Normalising a concatenation normalises each part in place, so the
      relative order of the input characters is kept. */
  lemma NormalizeAppend(a: string, b: string)
    ensures Normalize(a + b) == Normalize(a) + Normalize(b)
  {
    NormalizeIsCharwise(a + b);
    NormalizeIsCharwise(a);
    NormalizeIsCharwise(b);
    CharwiseAppend(a, b);
  }

  /** One character at a time: a `+` anywhere contributes `00`, a digit
      contributes itself, and every other character contributes nothing. */
  lemma NormalizeChar(c: char)
    ensures c == '+' ==> Normalize([c]) == "00"
    ensures IsDigit(c) ==> Normalize([c]) == [c]
    ensures c != '+' && !IsDigit(c) ==> Normalize([c]) == ""
  {
    NormalizeIsCharwise([c]);
    assert [c][1..] == "";
  }

  /** The per-character map leaves a digit string as it is. */
  lemma {:induction false} CharwiseOfDigits(s: string)
    requires IsDigits(s)
    ensures Charwise(s) == s
    decreases |s|
  {
    if |s| > 0 {
      CharwiseOfDigits(s[1..]);
      assert s == [s[0]] + s[1..];
    }
  }

  /** The fixed points of the normaliser are exactly the digit strings. */
  lemma NormalizeFixedPoints(s: string)
    ensures Normalize(s) == s <==> IsDigits(s)
  {
    if IsDigits(s) {
      NormalizeIsCharwise(s);
      CharwiseOfDigits(s);
    }
  }

  /** Normalising twice changes nothing. */
  lemma {:induction false} NormalizeIdempotent(raw: string)
    ensures Normalize(Normalize(raw)) == Normalize(raw)
  {
    NormalizeFixedPoints(Normalize(raw));
  }
}
