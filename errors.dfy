/**
 * The three failures the engine reports, their `Display` and `Debug`
 * texts, and the `Result` type every fallible stage returns.
 */
module Errors {
  import opened Text

  datatype SurtrError =
    | UrlParseError(message: Bytes)
    | CanonicalizerError(message: Bytes)
    | NoSchemeFoundError

  datatype Result<T> = Ok(value: T) | Err(error: SurtrError)
  {
    predicate IsFailure() { Err? }

    function PropagateFailure<U>(): Result<U>
      requires Err?
    {
      Err(error)
    }

    function Extract(): T
      requires Ok?
    {
      value
    }
  }

  /** The variant's name as `Display` spells it. */
  function KindName(e: SurtrError): Bytes
  {
    match e
    case UrlParseError(_) => Str("UrlParseError")
    case CanonicalizerError(_) => Str("CanonicalizerError")
    case NoSchemeFoundError => Str("NoSchemeFoundError")
  }

  /** The sentence `Display` gives a missing scheme. */
  const NO_SCHEME_SENTENCE: Bytes := Str("Expected scheme to be present in URL")

  /**
   * `Display`: the variant name, a colon and a space, then the carried
   * message (or a fixed sentence for a missing scheme).
   */
  function Display(e: SurtrError): (r: Bytes)
    ensures StartsWith(r, KindName(e) + Str(": "))
    ensures !e.NoSchemeFoundError? ==> |r| == |KindName(e)| + 2 + |e.message| && EndsWith(r, e.message)
    ensures !e.NoSchemeFoundError? ==> r == KindName(e) + Str(": ") + e.message
    ensures e.NoSchemeFoundError? ==> r == KindName(e) + Str(": ") + NO_SCHEME_SENTENCE
  {
    match e
    case UrlParseError(s) => Str("UrlParseError: ") + s
    case CanonicalizerError(s) => Str("CanonicalizerError: ") + s
    case NoSchemeFoundError => Str("NoSchemeFoundError: ") + NO_SCHEME_SENTENCE
  }

  /** The type name every `Debug` text starts with. */
  const DEBUG_HEAD: Bytes := Str("SurtrError::")
  const OPEN_BRACE: Bytes := Str(" { ")
  const CLOSE_BRACE: Bytes := Str(" }")

  /** The variant's name as `Debug` spells it. */
  function DebugName(e: SurtrError): Bytes
  {
    match e
    case UrlParseError(_) => Str("UrlParseError")
    case CanonicalizerError(_) => Str("CanonicalizerError")
    case NoSchemeFoundError => Str("NoSchemeFound")
  }

  /**
   * `Debug`: `SurtrError::<variant> { <message> }`; the missing-scheme
   * variant is spelled `NoSchemeFound`, without braces.
   */
  function Debug(e: SurtrError): (r: Bytes)
    ensures StartsWith(r, DEBUG_HEAD)
    ensures !e.NoSchemeFoundError? ==> EndsWith(r, OPEN_BRACE + e.message + CLOSE_BRACE)
    ensures e.NoSchemeFoundError? ==> r == DEBUG_HEAD + Str("NoSchemeFound")
    ensures !e.NoSchemeFoundError? ==> r == DEBUG_HEAD + KindName(e) + OPEN_BRACE + e.message + CLOSE_BRACE
  {
    var head := DEBUG_HEAD + DebugName(e);
    if e.NoSchemeFoundError? then head else head + (OPEN_BRACE + e.message + CLOSE_BRACE)
  }

  /** Distinct errors never display alike: the text identifies the error. */
  lemma DisplayInjective(e1: SurtrError, e2: SurtrError)
    requires Display(e1) == Display(e2)
    ensures e1 == e2
  {
    var d := Display(e1);
    assert d[0] == Display(e2)[0];
    if e1.UrlParseError? && e2.UrlParseError? {
      assert e1.message == d[15..] == e2.message;
    } else if e1.CanonicalizerError? && e2.CanonicalizerError? {
      assert e1.message == d[20..] == e2.message;
    }
  }

  /** Distinct errors never debug-print alike either. */
  lemma DebugInjective(e1: SurtrError, e2: SurtrError)
    requires Debug(e1) == Debug(e2)
    ensures e1 == e2
  {
    var d := Debug(e1);
    DebugNameAt(e1);
    DebugNameAt(e2);
    if !e1.NoSchemeFoundError? && !e2.NoSchemeFoundError? {
      var head := DEBUG_HEAD + DebugName(e1);
      MessageBetween(head, OPEN_BRACE, e1.message, CLOSE_BRACE);
      MessageBetween(head, OPEN_BRACE, e2.message, CLOSE_BRACE);
    }
  }

  /** Byte 12 of a `Debug` text is the first letter of the variant's name, which tells the variants apart. */
  lemma DebugNameAt(e: SurtrError)
    ensures |Debug(e)| > 12
    ensures Debug(e)[12] == (if e.UrlParseError? then 85 else if e.CanonicalizerError? then 67 else 78)
  {
    var name := DebugName(e);
    assert |DEBUG_HEAD| == 12;
    assert Debug(e)[12] == name[0];
  }

  /** The message sits between the two fixed pieces around it. */
  lemma MessageBetween(a: Bytes, b: Bytes, m: Bytes, c: Bytes)
    ensures var t := a + (b + m + c);
      |a| + |b| + |m| <= |t| && t[|a| + |b|..|a| + |b| + |m|] == m
  {
    var t := a + (b + m + c);
    assert forall i | 0 <= i < |m| :: t[|a| + |b| + i] == m[i];
  }
}
