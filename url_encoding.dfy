/**
 * Percent coding of URL components: one decoding pass (percent decoding
 * followed by strict UTF-8 validation), decoding repeated until nothing
 * changes, one encoding pass with the engine's escape set, and their
 * composition `minimal_escape`.
 */
module UrlEncoding {
  import opened Text
  import opened Errors

  // ---------------------------------------------------------------------
  // Percent decoding (one pass)
  // ---------------------------------------------------------------------

  predicate IsHexDigit(b: Byte) { IsDigitIn(b, 16) }

  /** A `%` followed by two hexadecimal digits (either case) starts at `i`. */
  predicate EscapeAt(s: Bytes, i: int)
  {
    0 <= i && i + 2 < |s| && s[i] == PERCENT && IsHexDigit(s[i + 1]) && IsHexDigit(s[i + 2])
  }

  predicate NoEscape(s: Bytes)
  {
    forall i | 0 <= i < |s| :: !EscapeAt(s, i)
  }

  function HexPairValue(hi: Byte, lo: Byte): Byte
    requires IsHexDigit(hi) && IsHexDigit(lo)
  {
    DigitValue(hi) * 16 + DigitValue(lo)
  }

  /**
   * One pass of percent decoding: every `%XX` becomes the byte it names;
   * a `%` not followed by two hex digits is kept and decoding resumes at
   * the next byte. The pass shrinks its input exactly when there is
   * something to decode.
   */
  function PercentDecode(s: Bytes): (r: Bytes)
    ensures |r| <= |s|
    ensures |r| == |s| <==> NoEscape(s)
    ensures NoEscape(s) ==> r == s
    decreases |s|
  {
    if |s| == 0 then []
    else if EscapeAt(s, 0) then
      [HexPairValue(s[1], s[2])] + PercentDecode(s[3..])
    else
      NoEscapeTail(s);
      [s[0]] + PercentDecode(s[1..])
  }

  lemma NoEscapeTail(s: Bytes)
    requires |s| > 0 && !EscapeAt(s, 0)
    ensures NoEscape(s) <==> NoEscape(s[1..])
  {
    assert forall i | 0 <= i < |s| - 1 :: EscapeAt(s[1..], i) == EscapeAt(s, i + 1);
    if NoEscape(s[1..]) {
      forall i | 0 <= i < |s|
        ensures !EscapeAt(s, i)
      {
        if i > 0 {
          assert !EscapeAt(s[1..], i - 1);
        }
      }
    }
  }

  lemma DecodeEscapeStep(s: Bytes)
    requires EscapeAt(s, 0)
    ensures PercentDecode(s) == [HexPairValue(s[1], s[2])] + PercentDecode(s[3..])
  {
  }

  lemma DecodeCopyStep(s: Bytes)
    requires |s| > 0 && !EscapeAt(s, 0)
    ensures PercentDecode(s) == [s[0]] + PercentDecode(s[1..])
  {
  }

  // ---------------------------------------------------------------------
  // Strict UTF-8 validation, as the standard library performs it
  // ---------------------------------------------------------------------

  /** Where validation stopped, and how many bytes form the bad sequence (none when the input ended early). */
  datatype Utf8Error = Utf8Error(validUpTo: nat, errorLen: Option<nat>)

  predicate IsContinuation(b: Byte) { 0x80 <= b < 0xC0 }

  /** Length of the sequence a leading byte announces; 0 for a byte that cannot lead. */
  function Utf8Width(b: Byte): nat
  {
    if b < 0x80 then 1
    else if b < 0xC2 then 0
    else if b < 0xE0 then 2
    else if b < 0xF0 then 3
    else if b < 0xF5 then 4
    else 0
  }

  /** Second byte of a three-byte sequence: no overlong forms, no surrogates. */
  predicate SecondOf3(first: Byte, b: Byte)
  {
    (first == 0xE0 && 0xA0 <= b <= 0xBF)
    || (0xE1 <= first <= 0xEC && 0x80 <= b <= 0xBF)
    || (first == 0xED && 0x80 <= b <= 0x9F)
    || (0xEE <= first <= 0xEF && 0x80 <= b <= 0xBF)
  }

  /** Second byte of a four-byte sequence: no overlong forms, nothing above U+10FFFF. */
  predicate SecondOf4(first: Byte, b: Byte)
  {
    (first == 0xF0 && 0x90 <= b <= 0xBF)
    || (0xF1 <= first <= 0xF3 && 0x80 <= b <= 0xBF)
    || (first == 0xF4 && 0x80 <= b <= 0x8F)
  }

  /** Validates `s[i..]`, reporting the first bad sequence with absolute positions. */
  function Utf8CheckFrom(s: Bytes, i: nat): (r: Option<Utf8Error>)
    requires i <= |s|
    ensures r.Some? ==> i <= r.value.validUpTo < |s|
    ensures r.Some? && r.value.errorLen.Some? ==> 1 <= r.value.errorLen.value <= 3
    decreases |s| - i
  {
    if i == |s| then None
    else
      var first := s[i];
      var w := Utf8Width(first);
      if w == 1 then Utf8CheckFrom(s, i + 1)
      else if w == 2 then
        if i + 1 >= |s| then Some(Utf8Error(i, None))
        else if !IsContinuation(s[i + 1]) then Some(Utf8Error(i, Some(1)))
        else Utf8CheckFrom(s, i + 2)
      else if w == 3 then
        if i + 1 >= |s| then Some(Utf8Error(i, None))
        else if !SecondOf3(first, s[i + 1]) then Some(Utf8Error(i, Some(1)))
        else if i + 2 >= |s| then Some(Utf8Error(i, None))
        else if !IsContinuation(s[i + 2]) then Some(Utf8Error(i, Some(2)))
        else Utf8CheckFrom(s, i + 3)
      else if w == 4 then
        if i + 1 >= |s| then Some(Utf8Error(i, None))
        else if !SecondOf4(first, s[i + 1]) then Some(Utf8Error(i, Some(1)))
        else if i + 2 >= |s| then Some(Utf8Error(i, None))
        else if !IsContinuation(s[i + 2]) then Some(Utf8Error(i, Some(2)))
        else if i + 3 >= |s| then Some(Utf8Error(i, None))
        else if !IsContinuation(s[i + 3]) then Some(Utf8Error(i, Some(3)))
        else Utf8CheckFrom(s, i + 4)
      else Some(Utf8Error(i, Some(1)))
  }

  predicate ValidUtf8(s: Bytes) { Utf8CheckFrom(s, 0).None? }

  /** Pure ASCII text is always valid UTF-8. */
  lemma {:induction false} AsciiValidFrom(s: Bytes, i: nat)
    requires i <= |s| && AllAscii(s)
    ensures Utf8CheckFrom(s, i).None?
    decreases |s| - i
  {
    if i < |s| {
      AsciiValidFrom(s, i + 1);
    }
  }

  lemma AsciiValid(s: Bytes)
    requires AllAscii(s)
    ensures ValidUtf8(s)
  {
    AsciiValidFrom(s, 0);
  }

  /** The standard library's `Display` of a UTF-8 error. */
  function Utf8ErrorText(e: Utf8Error): Bytes
  {
    match e.errorLen
    case Some(n) =>
      Str("invalid utf-8 sequence of ") + Decimal(n) + Str(" bytes from index ") + Decimal(e.validUpTo)
    case None =>
      Str("incomplete utf-8 byte sequence from index ") + Decimal(e.validUpTo)
  }

  function NotUtf8(e: Utf8Error): SurtrError
  {
    CanonicalizerError(Str("provided string is not UTF-8 encoded ") + Utf8ErrorText(e))
  }

  /** One decoding pass: percent decoding, then UTF-8 validation of the bytes obtained. */
  function DecodePass(s: Bytes): (r: Result<Bytes>)
    ensures r.Ok? <==> ValidUtf8(PercentDecode(s))
    ensures r.Ok? ==> r.value == PercentDecode(s)
    ensures r.Err? ==> r.error.CanonicalizerError?
  {
    var d := PercentDecode(s);
    match Utf8CheckFrom(d, 0)
    case None => Ok(d)
    case Some(e) => Err(NotUtf8(e))
  }

  // ---------------------------------------------------------------------
  // Repeated decoding
  // ---------------------------------------------------------------------

  /**
   * Decoding repeated until a pass changes nothing. The result is valid
   * UTF-8, holds no escape, and one more pass returns it unchanged; a
   * failing pass stops the repetition with its error.
   */
  function Unescaped(s: Bytes): (r: Result<Bytes>)
    ensures r.Ok? ==> |r.value| <= |s|
    ensures r.Ok? ==> DecodePass(r.value) == Ok(r.value)
    ensures r.Ok? ==> NoEscape(r.value) && ValidUtf8(r.value)
    ensures r.Err? ==> r.error.CanonicalizerError?
    decreases |s|
  {
    match DecodePass(s)
    case Err(e) => Err(e)
    case Ok(d) => if d == s then Ok(s) else Unescaped(d)
  }

  /** Text that is valid UTF-8 and holds no escape is its own unescaping. */
  lemma UnescapedFixedPoint(s: Bytes)
    requires NoEscape(s) && ValidUtf8(s)
    ensures Unescaped(s) == Ok(s)
  {
  }

  /** `unescape_repeatedly`: the decoding loop. */
  method UnescapeRepeatedly(input: Bytes) returns (r: Result<Bytes>)
    ensures r == Unescaped(input)
  {
    var working := input;
    while true
      invariant Unescaped(working) == Unescaped(input)
      decreases |working|
    {
      var un := PercentDecode(working);
      var check := Utf8CheckFrom(un, 0);
      if check.Some? {
        return Err(NotUtf8(check.value));
      }
      if un == working {
        return Ok(working);
      }
      working := un;
    }
  }

  // ---------------------------------------------------------------------
  // Percent encoding (one pass)
  // ---------------------------------------------------------------------

  /**
   * Bytes written as `%XX`: controls, space, `#`, `%`, DEL and every
   * non-ASCII byte. All other printable ASCII is kept.
   */
  predicate Escaped(b: Byte)
  {
    b <= 32 || b == HASH || b == PERCENT || b >= 127
  }

  function HexUpper(n: nat): (b: Byte)
    requires n < 16
    ensures IsHexDigit(b) && DigitValue(b) == n
    ensures !Escaped(b)
  {
    if n < 10 then 48 + n else 55 + n
  }

  function EncodeByte(b: Byte): (r: Bytes)
    ensures 1 <= |r| <= 3
  {
    if Escaped(b) then [PERCENT, HexUpper(b / 16), HexUpper(b % 16)] else [b]
  }

  /** Printable ASCII other than `#`: what an encoding pass emits. */
  predicate EncodedAlphabet(r: Bytes)
  {
    forall i | 0 <= i < |r| :: 33 <= r[i] < 127 && r[i] != HASH
  }

  /**
   * One pass of percent encoding: the result only holds printable ASCII
   * other than `#`, and is never shorter than the input.
   */
  function EscapeOnce(s: Bytes): (r: Bytes)
    ensures EncodedAlphabet(r)
    ensures |r| >= |s|
    decreases |s|
  {
    if |s| == 0 then []
    else EncodeByte(s[0]) + EscapeOnce(s[1..])
  }

  /** Every `%` an encoding pass emits starts an escape. */
  lemma {:induction false} EscapeOncePercents(s: Bytes)
    ensures forall i | 0 <= i < |EscapeOnce(s)| :: EscapeOnce(s)[i] == PERCENT ==> EscapeAt(EscapeOnce(s), i)
    decreases |s|
  {
    if |s| > 0 {
      var head := EncodeByte(s[0]);
      var rest := EscapeOnce(s[1..]);
      var r := EscapeOnce(s);
      EscapeOncePercents(s[1..]);
      assert r == head + rest;
      forall i | 0 <= i < |r| && r[i] == PERCENT
        ensures EscapeAt(r, i)
      {
        if i >= |head| {
          assert r[i] == rest[i - |head|];
          assert EscapeAt(rest, i - |head|);
        }
      }
    }
  }

  /** An encoding pass changes its input exactly when some byte needs escaping. */
  lemma {:induction false} EscapeOnceUnchanged(s: Bytes)
    ensures EscapeOnce(s) == s <==> forall i | 0 <= i < |s| :: !Escaped(s[i])
    decreases |s|
  {
    if |s| > 0 {
      EscapeOnceUnchanged(s[1..]);
      var r := EscapeOnce(s);
      assert (forall i | 0 <= i < |s| :: !Escaped(s[i]))
        <==> !Escaped(s[0]) && forall i | 0 <= i < |s| - 1 :: !Escaped(s[1..][i]);
      if Escaped(s[0]) {
        assert |r| > |s|;
      } else if r == s {
        assert r[1..] == EscapeOnce(s[1..]);
      }
    }
  }

  /** Decoding undoes encoding: `percent_decode(escape_once(s)) == s`. */
  lemma {:induction false} DecodeEscapeOnce(s: Bytes)
    ensures PercentDecode(EscapeOnce(s)) == s
    decreases |s|
  {
    if |s| > 0 {
      var t := s[1..];
      assert EscapeOnce(s) == EncodeByte(s[0]) + EscapeOnce(t);
      DecodeEscapeOnce(t);
      DecodeEncodedByte(s[0], EscapeOnce(t));
      assert s == [s[0]] + t;
    }
  }

  /** Decoding reads one encoded byte back and goes on with what follows it. */
  lemma DecodeEncodedByte(b: Byte, rest: Bytes)
    ensures PercentDecode(EncodeByte(b) + rest) == [b] + PercentDecode(rest)
  {
    var r := EncodeByte(b) + rest;
    if Escaped(b) {
      var hi, lo := HexUpper(b / 16), HexUpper(b % 16);
      assert r == [PERCENT, hi, lo] + rest;
      assert EscapeAt(r, 0);
      DecodeEscapeStep(r);
      assert r[3..] == rest;
    } else {
      assert r == [b] + rest;
      DecodeCopyStep(r);
      assert r[1..] == rest;
    }
  }

  /** `minimal_escape`: decode repeatedly, then encode once. */
  function MinimalEscape(s: Bytes): (r: Result<Bytes>)
    ensures r.Ok? <==> Unescaped(s).Ok?
    ensures r.Err? ==> r == Unescaped(s)
    ensures r.Ok? ==> PercentDecode(r.value) == Unescaped(s).value
  {
    match Unescaped(s)
    case Err(e) => Err(e)
    case Ok(u) => DecodeEscapeOnce(u); Ok(EscapeOnce(u))
  }

  /** Escaping the fully decoded text and decoding again restores that text. */
  lemma UnescapeOfEscaped(u: Bytes)
    requires Unescaped(u) == Ok(u)
    ensures Unescaped(EscapeOnce(u)) == Ok(u)
  {
    var e := EscapeOnce(u);
    DecodeEscapeOnce(u);
    assert DecodePass(u) == Ok(u);
    assert DecodePass(e) == Ok(u);
  }

  /** `minimal_escape` is idempotent: its output is already minimally escaped. */
  lemma {:induction false} MinimalEscapeIdempotent(s: Bytes)
    requires MinimalEscape(s).Ok?
    ensures MinimalEscape(MinimalEscape(s).value) == MinimalEscape(s)
  {
    var u := Unescaped(s).value;
    assert Unescaped(u) == Ok(u) by {
      assert DecodePass(u) == Ok(u);
    }
    UnescapeOfEscaped(u);
  }

  // ---------------------------------------------------------------------
  // Examples (from the unit tests of url_encoding.rs)
  // ---------------------------------------------------------------------

  /** One decoding pass that changes ASCII text hands over to the next pass. */
  lemma UnescapeStep(s: Bytes, d: Bytes)
    requires PercentDecode(s) == d && AllAscii(d) && d != s
    ensures Unescaped(s) == Unescaped(d)
  {
    AsciiValid(d);
  }

  /** `n` encoding passes over `u`. */
  function EscapeLayers(u: Bytes, n: nat): Bytes
  {
    if n == 0 then u else EscapeOnce(EscapeLayers(u, n - 1))
  }

  /**
   * However many times fully decoded text is escaped (`%` becoming `%25`,
   * `%2525`, ...), repeated unescaping brings it back.
   */
  lemma {:induction false} UnescapeLayers(u: Bytes, n: nat)
    requires Unescaped(u) == Ok(u)
    ensures Unescaped(EscapeLayers(u, n)) == Ok(u)
  {
    if n > 0 {
      var v := EscapeLayers(u, n - 1);
      UnescapeLayers(u, n - 1);
      if n - 1 > 0 {
        assert AllAscii(v);
        AsciiValid(v);
      }
      DecodeEscapeOnce(v);
      assert DecodePass(EscapeOnce(v)) == Ok(v);
    }
  }

  lemma Example25()
    ensures Unescaped(Str("%25")) == Ok(Str("%"))
  {
    var s := Str("%25");
    DecodeEscapeStep(s);
    UnescapeStep(s, Str("%"));
    AsciiValid(Str("%"));
    UnescapedFixedPoint(Str("%"));
  }

  lemma ExampleLonePercent()
    ensures Unescaped(Str("%")) == Ok(Str("%"))
    ensures Unescaped(Str("%2")) == Ok(Str("%2"))
  {
    AsciiValid(Str("%"));
    AsciiValid(Str("%2"));
    UnescapedFixedPoint(Str("%"));
    UnescapedFixedPoint(Str("%2"));
  }

  /** A lone `%C3` decodes to an incomplete two-byte sequence and is rejected. */
  lemma ExampleInvalidUtf8()
    ensures Unescaped(Str("%C3")).Err?
  {
    var s := Str("%C3");
    DecodeEscapeStep(s);
    assert PercentDecode(s) == [0xC3];
  }
}
