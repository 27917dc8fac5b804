/**
 * The library entry point: `surt` fills in its two defaults and hands
 * over to `_surt`, which lets `filedesc` records through unchanged and
 * otherwise parses, canonicalizes and renders the URL.
 */
module Surt {
  import opened Text
  import opened Errors
  import opened Options
  import Handy
  import Google
  import Ia
  import Default
  import UrlEncoding
  import UrlSplit
  import RegexTransformer

  /** The bytes of `filedesc`, the record type passed through untouched. */
  const FILEDESC: Bytes := [102, 105, 108, 101, 100, 101, 115, 99]

  /**
   * The options `surt` works with: every setting of the caller is kept;
   * `surt` is switched on and `with_scheme` off only where the caller left
   * them unset, and nothing else is added.
   */
  function EffectiveOptions(given: OptionMap): (r: OptionMap)
    ensures forall option | option in given :: option in r && r[option] == given[option]
    ensures r.Keys == given.Keys + {"surt", "with_scheme"}
    ensures Handy.SurtOn(r) == ValueOr(given, "surt", true)
    ensures Handy.WithScheme(r) == ValueOr(given, "with_scheme", false)
  {
    var withSurt := if "surt" in given then given else given["surt" := true];
    if "with_scheme" in withSurt then withSurt else withSurt["with_scheme" := false]
  }

  /** The URLs `_surt` does not panic for: the ones the google pass accepts once parsed. */
  predicate Defined(url: Bytes, domainToAscii: Bytes -> Option<Bytes>)
  {
    !StartsWith(url, FILEDESC) && Handy.Parsed(url).Ok? ==> Google.Defined(Handy.Parsed(url).value, domainToAscii)
  }

  /**
   * What `_surt` returns. A `filedesc` record comes back as it is; any
   * other URL fails exactly when the minimal escaping of its credentials or
   * query fails, and with that error: parsing never fails and always finds
   * a scheme, which the canonicalizers keep, so rendering cannot miss it.
   */
  function Surted(url: Bytes, m: OptionMap, domainToAscii: Bytes -> Option<Bytes>,
                  publicSuffix: Bytes -> Option<Bytes>): (r: Result<Bytes>)
    requires Defined(url, domainToAscii)
    ensures StartsWith(url, FILEDESC) ==> r == Ok(url)
    ensures r.Err? <==> (!StartsWith(url, FILEDESC) && Handy.Parsed(url).Ok?
      && !Google.EscapesSucceed(Handy.Parsed(url).value))
    ensures r.Err? ==> r.error.CanonicalizerError?
  {
    if StartsWith(url, FILEDESC) then Ok(url)
    else
      match Default.Canonicalized(Handy.Parsed(url).value, m, domainToAscii)
      case Err(e) => Err(e)
      case Ok(canonical) =>
        Handy.Rendered(canonical, m, publicSuffix)
  }

  /**
   * `_surt`. Parsing cannot fail, so its `?` always passes the record on;
   * the canonicalizer's failure is returned. The public-suffix lookup and
   * the IDNA conversion are parameters.
   */
  method SurtWith(url: Bytes, options: SurtrOptions, domainToAscii: Bytes -> Option<Bytes>,
                  publicSuffix: Bytes -> Option<Bytes>) returns (r: Result<Bytes>)
    requires Defined(url, domainToAscii)
    ensures r == Surted(url, options.options, domainToAscii, publicSuffix)
  {
    if StartsWith(url, FILEDESC) {
      return Ok(url);
    }
    var parsed := Handy.Parse(url);
    var hurl := parsed.value;
    var canonical := Default.Canonicalize(hurl, options, domainToAscii);
    if canonical.Err? {
      return Err(canonical.error);
    }
    hurl := canonical.value;
    r := Handy.GetUrl(hurl, options, publicSuffix);
  }

  /**
   * `surt`: works on a copy of the caller's options (or on empty ones),
   * sets the two defaults where they are unset, then runs `_surt`.
   */
  method Surt(url: Bytes, options: Option<SurtrOptions>, domainToAscii: Bytes -> Option<Bytes>,
              publicSuffix: Bytes -> Option<Bytes>) returns (r: Result<Bytes>)
    requires Defined(url, domainToAscii)
    ensures r == Surted(url, EffectiveOptions(if options.Some? then options.value.options else map[]),
                        domainToAscii, publicSuffix)
  {
    ghost var given := if options.Some? then options.value.options else map[];
    var sOptions: SurtrOptions;
    if options.Some? {
      sOptions := new SurtrOptions.Clone(options.value);
    } else {
      sOptions := new SurtrOptions();
    }
    assert sOptions.options == given;
    if sOptions.Get("surt").None? {
      sOptions.Set("surt", true);
    }
    if sOptions.Get("with_scheme").None? {
      sOptions.Set("with_scheme", false);
    }
    assert sOptions.options == EffectiveOptions(given);
    r := SurtWith(url, sOptions, domainToAscii, publicSuffix);
    assert r == Surted(url, EffectiveOptions(given), domainToAscii, publicSuffix);
  }

  // ---------------------------------------------------------------------
  // The key of a plain `http://host/` URL
  // ---------------------------------------------------------------------

  /** `http://<host>/`, with no port, query or fragment. */
  function HostRootUrl(host: Bytes): Bytes
  {
    Handy.PlainUrl(Handy.HTTP, host, None, [SLASH], None, None)
  }

  /** The record `parse` builds for `http://<host>/`. */
  function HostRootRecord(host: Bytes): Handy.HandyUrl
  {
    Handy.HandyUrl(Some(Handy.HTTP), None, None, Some(host), None, Some([SLASH]), None, None, None)
  }

  /** A host whose bytes need no escaping, without `..` or an outer dot, holding a letter. */
  predicate PlainName(host: Bytes)
  {
    && Handy.AuthorityText(host) && Google.Plain(host) && Google.NoDoubleDot(host)
    && host[0] != DOT && host[|host| - 1] != DOT
    && exists i | 0 <= i < |host| :: IsAlpha(host[i])
  }

  lemma HostRootParsed(host: Bytes)
    requires Handy.AuthorityText(host)
    ensures Handy.Parsed(HostRootUrl(host)) == Ok(HostRootRecord(host))
    ensures !StartsWith(HostRootUrl(host), FILEDESC)
  {
    assert UrlSplit.SchemeShaped(Handy.HTTP);
    assert Handy.PathText([SLASH]);
    Handy.ParsedPlainUrl(Handy.HTTP, host, None, [SLASH], None, None);
    assert HostRootUrl(host)[0] != FILEDESC[0];
  }

  /** `/` comes through unescaping, normalizing and escaping unchanged. */
  lemma RootPathCanonical()
    ensures UrlEncoding.Unescaped([SLASH]) == Ok([SLASH])
    ensures Google.CanonicalPath(Some([SLASH]), true) == Some([SLASH])
  {
    assert UrlEncoding.NoEscape([SLASH]);
    UrlEncoding.AsciiValid([SLASH]);
    UrlEncoding.UnescapedFixedPoint([SLASH]);
    Google.RenderedSettledFixed([]);
    assert Google.Rendered([]) == [SLASH];
    UrlEncoding.EscapeOnceUnchanged([SLASH]);
  }

  /** The google pass can run on the root record of a plain name, and its host becomes the lower-cased name. */
  lemma HostRootGoogleDefined(host: Bytes, domainToAscii: Bytes -> Option<Bytes>)
    requires PlainName(host)
    ensures Google.EscapesSucceed(HostRootRecord(host))
    ensures Google.Defined(HostRootRecord(host), domainToAscii)
    ensures Google.HostDefined(host, domainToAscii) && Google.CanonicalHost(host, domainToAscii) == Lower(host)
  {
    var i :| 0 <= i < |host| && IsAlpha(host[i]);
    Google.CanonicalHostOfName(host, i, domainToAscii);
    RootPathCanonical();
  }

  /** The google pass lower-cases a plain name and keeps the root path. */
  lemma HostRootGoogle(host: Bytes, domainToAscii: Bytes -> Option<Bytes>)
    requires PlainName(host)
    ensures Google.Defined(HostRootRecord(host), domainToAscii)
    ensures Google.Canonicalized(HostRootRecord(host), domainToAscii) == Ok(HostRootRecord(Lower(host)))
  {
    HostRootGoogleDefined(host, domainToAscii);
    RootPathCanonical();
    assert Google.EscapedField(None) == Ok(None);
    Google.CanonicalizedOk(HostRootRecord(host), domainToAscii);
  }

  /** Under the options `surt` fills in, the IA path step keeps the path `/`. */
  lemma RootPathIa()
    ensures Ia.PathStep([SLASH], EffectiveOptions(map[])) == Some([SLASH])
  {
    var m := EffectiveOptions(map[]);
    assert "path_strip_empty" !in m && "path_lowercase" !in m;
    assert "path_strip_session_id" !in m && "path_strip_trailing_slash_unless_empty" !in m;
    assert Lower([SLASH]) == [SLASH];
    RegexTransformer.PathWithoutParen([SLASH]);
  }

  /** A plain name, lower-cased, is ASCII, so the `www` step cuts it on a character boundary. */
  lemma PlainMassageSafe(host: Bytes)
    requires Google.Plain(host)
    ensures Ia.MassageSafe(Lower(host))
  {
    Google.PlainLower(host);
    assert AllAscii(Lower(host));
    Ia.MassageSafeAscii(Lower(host));
  }

  /**
   * Under the options `surt` fills in, the IA pass only massages the
   * (already lower-case) host.
   */
  lemma HostRootIa(host: Bytes)
    requires Google.Plain(host)
    ensures Ia.MassageSafe(Lower(host))
    ensures Ia.Defined(HostRootRecord(Lower(host)), EffectiveOptions(map[]))
    ensures Ia.Canonicalized(HostRootRecord(Lower(host)), EffectiveOptions(map[]))
      == HostRootRecord(Ia.MassageHost(Some(Lower(host))).value)
  {
    var m := EffectiveOptions(map[]);
    var u := HostRootRecord(Lower(host));
    PlainMassageSafe(host);
    LowerIdempotent(host);
    assert "host_lowercase" !in m && "host_massage" !in m;
    assert Ia.LoweredHost(u, m) == Some(Lower(host));
    RootPathIa();
    Ia.CanonicalizedFields(u, m);
  }

  /** Both passes together: the root record with the lower-cased, massaged name. */
  lemma HostRootDefault(host: Bytes, domainToAscii: Bytes -> Option<Bytes>)
    requires PlainName(host)
    ensures Google.Defined(HostRootRecord(host), domainToAscii)
    ensures Ia.MassageSafe(Lower(host))
    ensures Default.Canonicalized(HostRootRecord(host), EffectiveOptions(map[]), domainToAscii)
      == Ok(HostRootRecord(Ia.MassageHost(Some(Lower(host))).value))
  {
    HostRootGoogle(host, domainToAscii);
    HostRootIa(host);
  }

  /** Rendering the root record of a host under the options `surt` fills in. */
  lemma HostRootRendered(host: Bytes, publicSuffix: Bytes -> Option<Bytes>)
    ensures Handy.Rendered(HostRootRecord(host), EffectiveOptions(map[]), publicSuffix)
      == Ok(RegexTransformer.HostToSurt(host, true) + [RPAREN, SLASH])
  {
    var m := EffectiveOptions(map[]);
    assert "public_suffix" !in m && "trailing_comma" !in m && "reverse_ipaddr" !in m;
    Handy.RenderedSurtHost(HostRootRecord(host), m, publicSuffix);
    var tail := Handy.TailText(HostRootRecord(host));
    assert tail == [SLASH];
    assert [] + [RPAREN] + tail == [RPAREN, SLASH];
  }

  /**
   * The key of `http://<host>/` for a plain name under the default
   * options: the host lower-cased, a `www\d*.` match cut from its front,
   * its labels reversed and joined with commas, then `)/`. The unit tests'
   * `http://www.archive.org/` giving `org,archive)/` is an instance.
   */
  lemma HostRootKey(host: Bytes, domainToAscii: Bytes -> Option<Bytes>, publicSuffix: Bytes -> Option<Bytes>)
    requires PlainName(host)
    ensures Defined(HostRootUrl(host), domainToAscii)
    ensures Ia.MassageSafe(Lower(host))
    ensures Surted(HostRootUrl(host), EffectiveOptions(map[]), domainToAscii, publicSuffix)
      == Ok(RegexTransformer.HostToSurt(Ia.MassageHost(Some(Lower(host))).value, true) + [RPAREN, SLASH])
  {
    HostRootParsed(host);
    HostRootDefault(host, domainToAscii);
    HostRootRendered(Ia.MassageHost(Some(Lower(host))).value, publicSuffix);
  }

  /** A plain name behind `www<digits>.` is itself a plain name host. */
  lemma WwwPlainName(digits: Bytes, rest: Bytes)
    requires AllDigits(digits) && PlainName(rest)
    ensures PlainName(Ia.WWW + digits + [DOT] + rest)
  {
    var h := Ia.WWW + digits + [DOT] + rest;
    var n := |digits| + 4;
    assert forall k | 3 <= k < n - 1 :: h[k] == digits[k - 3];
    assert forall k | n <= k < |h| :: h[k] == rest[k - n];
    assert IsAlpha(h[0]);
  }

  /**
   * `http://www<digits>.<name>/` gets the same key as `http://<name>/`:
   * the massage takes the `www<digits>.` off, so `http://www.archive.org/`
   * and `http://archive.org/` both give `org,archive)/`.
   */
  lemma WwwHostRootKey(digits: Bytes, rest: Bytes, domainToAscii: Bytes -> Option<Bytes>,
                       publicSuffix: Bytes -> Option<Bytes>)
    requires AllDigits(digits) && PlainName(rest)
    ensures Defined(HostRootUrl(Ia.WWW + digits + [DOT] + rest), domainToAscii)
    ensures Surted(HostRootUrl(Ia.WWW + digits + [DOT] + rest), EffectiveOptions(map[]), domainToAscii, publicSuffix)
      == Ok(RegexTransformer.HostToSurt(Lower(rest), true) + [RPAREN, SLASH])
  {
    WwwPlainName(digits, rest);
    HostRootKey(Ia.WWW + digits + [DOT] + rest, domainToAscii, publicSuffix);
    WwwMassaged(digits, rest);
  }

  /** Lower-casing leaves `www<digits>.` alone, and the massage then takes it off. */
  lemma WwwMassaged(digits: Bytes, rest: Bytes)
    requires AllDigits(digits) && PlainName(rest)
    ensures Lower(Ia.WWW + digits + [DOT] + rest) == Ia.WWW + digits + [DOT] + Lower(rest)
    ensures Ia.MassageSafe(Ia.WWW + digits + [DOT] + Lower(rest))
    ensures Ia.MassageHost(Some(Ia.WWW + digits + [DOT] + Lower(rest))) == Some(Lower(rest))
  {
    LowerConcat(Ia.WWW + digits + [DOT], rest);
    LowerConcat(Ia.WWW + digits, [DOT]);
    LowerConcat(Ia.WWW, digits);
    assert Lower(Ia.WWW) == Ia.WWW;
    assert Lower(digits) == digits;
    assert Lower([DOT]) == [DOT];
    Google.PlainLower(rest);
    Ia.MassageLeadingPrefix(digits, Lower(rest));
  }
}
