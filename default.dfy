/**
 * The default canonicalizer: the google pass followed by the IA pass,
 * the first failure being the result.
 */
module Default {
  import opened Text
  import opened Errors
  import opened Options
  import Handy
  import Google
  import Ia

  /** Every byte of a text `Ipv4Addr::from_str` accepts is a digit or a dot. */
  lemma Ipv4TextAscii(s: Bytes)
    requires Google.ParseIpv4(s).Some?
    ensures AllAscii(s)
  {
    var ps := Split(s, DOT);
    forall i | 0 <= i < |ps|
      ensures AllDigitsIn(ps[i], 10)
    {
      assert Google.OctetText(ps[i]);
    }
    Google.DigitPiecesEverywhere(s, 10);
  }

  /** The google pass leaves only ASCII in the host: a dotted quad or an encoded name. */
  lemma CanonicalHostAscii(host: Bytes, domainToAscii: Bytes -> Option<Bytes>)
    requires Google.HostDefined(host, domainToAscii)
    ensures AllAscii(Google.CanonicalHost(host, domainToAscii))
  {
    var r := Google.CanonicalHost(host, domainToAscii);
    if Google.ParseIpv4(r).Some? {
      Ipv4TextAscii(r);
    }
  }

  /** The host the google pass hands to the IA pass is ASCII, lowered or not. */
  lemma GoogleHostAscii(u: Handy.HandyUrl, m: OptionMap, domainToAscii: Bytes -> Option<Bytes>)
    requires Google.Defined(u, domainToAscii) && Google.Canonicalized(u, domainToAscii).Ok?
    ensures Ia.LoweredHost(Google.Canonicalized(u, domainToAscii).value, m).Some?
      ==> AllAscii(Ia.LoweredHost(Google.Canonicalized(u, domainToAscii).value, m).value)
  {
    if u.host.Some? {
      Google.CanonicalizedHost(u, domainToAscii);
      CanonicalHostAscii(u.host.value, domainToAscii);
    }
  }

  /**
   * Whenever the google pass does not panic, neither does the IA pass on
   * its result: the `www` step only ever meets an ASCII host.
   */
  lemma IaDefinedAfterGoogle(u: Handy.HandyUrl, m: OptionMap, domainToAscii: Bytes -> Option<Bytes>)
    requires Google.Defined(u, domainToAscii) && Google.Canonicalized(u, domainToAscii).Ok?
    ensures Ia.Defined(Google.Canonicalized(u, domainToAscii).value, m)
  {
    var g := Google.Canonicalized(u, domainToAscii).value;
    GoogleHostAscii(u, m, domainToAscii);
    if Ia.MassageApplies(g, m) {
      Ia.MassageSafeAscii(Ia.LoweredHost(g, m).value);
    }
  }

  /**
   * What `canonicalize` returns: a failure of the google pass unchanged,
   * otherwise the IA pass applied to the google result. The fragment is
   * gone and the scheme kept; a host, when there was one, is still there,
   * is ASCII, and with `host_lowercase` (on by default) holds no capital.
   */
  function Canonicalized(u: Handy.HandyUrl, m: OptionMap, domainToAscii: Bytes -> Option<Bytes>): (r: Result<Handy.HandyUrl>)
    requires Google.Defined(u, domainToAscii)
    ensures r.Err? <==> !Google.EscapesSucceed(u)
    ensures r.Err? ==> r == Google.Canonicalized(u, domainToAscii)
    ensures r.Ok? ==> r.value.hash.None? && r.value.scheme == u.scheme
    ensures r.Ok? ==> (r.value.host.Some? <==> u.host.Some?)
    ensures r.Ok? && r.value.host.Some? ==> AllAscii(r.value.host.value)
    ensures r.Ok? && r.value.host.Some? && ValueOr(m, "host_lowercase", true) ==> Ia.NoUpper(r.value.host.value)
  {
    match Google.Canonicalized(u, domainToAscii)
    case Err(e) => Err(e)
    case Ok(g) =>
      IaDefinedAfterGoogle(u, m, domainToAscii);
      GoogleHostAscii(u, m, domainToAscii);
      Ok(Ia.Canonicalized(g, m))
  }

  /** `canonicalize`: the two passes in turn on the owned record, each `?` passing a failure on. */
  method Canonicalize(urlInput: Handy.HandyUrl, options: SurtrOptions, domainToAscii: Bytes -> Option<Bytes>)
    returns (r: Result<Handy.HandyUrl>)
    requires Google.Defined(urlInput, domainToAscii)
    ensures r == Canonicalized(urlInput, options.options, domainToAscii)
  {
    var url := urlInput;
    var google := Google.Canonicalize(url, domainToAscii);
    if google.Err? {
      return Err(google.error);
    }
    url := google.value;
    IaDefinedAfterGoogle(urlInput, options.options, domainToAscii);
    // The IA pass never fails, so its `?` always passes the record on.
    var ia := Ia.Canonicalize(url, options);
    url := ia.value;
    r := Ok(url);
  }
}
