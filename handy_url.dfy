/**
 * `HandyUrl`: the record a URL is parsed into, the cleaning `parse`
 * applies before splitting, and `get_url`, which writes the record back
 * out either as a URL or as a SURT (sort-friendly URI reordering
 * transform) depending on the options.
 */
module Handy {
  import opened Text
  import opened Errors
  import opened Options
  import UrlSplit
  import RegexTransformer

  /** The parts of a URL; every part is optional. */
  datatype HandyUrl = HandyUrl(
    scheme: Option<Bytes>,
    authUser: Option<Bytes>,
    authPass: Option<Bytes>,
    host: Option<Bytes>,
    port: Option<Bytes>,
    path: Option<Bytes>,
    query: Option<Bytes>,
    hash: Option<Bytes>,
    lastDelimiter: Option<Bytes>)

  // ---------------------------------------------------------------------
  // Cleaning: trim, control bytes, default scheme, repeated protocols
  // ---------------------------------------------------------------------

  /** The ASCII white space `trim` removes: tab, line feed, vertical tab, form feed, carriage return, space. */
  predicate IsSpace(b: Byte) { 9 <= b <= 13 || b == SPACE }

  predicate NoSpace(s: Bytes) { forall i | 0 <= i < |s| :: !IsSpace(s[i]) }

  /** Length of the white-space run at the start of `s`. */
  function LeadingSpaces(s: Bytes): (k: nat)
    ensures k <= |s|
    ensures forall i | 0 <= i < k :: IsSpace(s[i])
    ensures k < |s| ==> !IsSpace(s[k])
  {
    if |s| == 0 || !IsSpace(s[0]) then 0 else 1 + LeadingSpaces(s[1..])
  }

  /** Length of the white-space run at the end of `s`. */
  function TrailingSpaces(s: Bytes): (k: nat)
    ensures k <= |s|
    ensures forall i | |s| - k <= i < |s| :: IsSpace(s[i])
    ensures k < |s| ==> !IsSpace(s[|s| - k - 1])
  {
    if |s| == 0 || !IsSpace(s[|s| - 1]) then 0 else 1 + TrailingSpaces(s[..|s| - 1])
  }

  /**
   * `str::trim`: the text between the leading and the trailing white
   * space; what is cut off is white space, what is kept neither starts nor
   * ends with it.
   */
  function Trim(s: Bytes): (r: Bytes)
    ensures LeadingSpaces(s) + |r| <= |s|
    ensures r == s[LeadingSpaces(s)..LeadingSpaces(s) + |r|]
    ensures forall i | LeadingSpaces(s) + |r| <= i < |s| :: IsSpace(s[i])
    ensures |r| > 0 ==> !IsSpace(r[0]) && !IsSpace(r[|r| - 1])
  {
    var a := LeadingSpaces(s);
    var t := s[a..];
    t[..|t| - TrailingSpaces(t)]
  }

  /** A text that neither starts nor ends with white space is its own trim. */
  lemma TrimKeeps(s: Bytes)
    requires |s| > 0 ==> !IsSpace(s[0]) && !IsSpace(s[|s| - 1])
    ensures Trim(s) == s
  {
  }

  /** The bytes `[\n\r\t]` that `parse` deletes wherever they occur. */
  const ControlBytes: set<Byte> := {TAB, LF, CR}

  function RemoveControls(s: Bytes): (r: Bytes)
    ensures TAB !in r && LF !in r && CR !in r
  {
    Remove(s, ControlBytes)
  }

  /** Deleting the control bytes keeps every other byte, as often as it occurred. */
  lemma {:induction false} RemoveControlsKeeps(s: Bytes, b: Byte)
    requires b !in ControlBytes
    ensures Count(RemoveControls(s), b) == Count(s, b)
  {
    if |s| > 0 {
      var head: Bytes := if s[0] in ControlBytes then [] else [s[0]];
      assert RemoveControls(s) == head + RemoveControls(s[1..]);
      CountConcat(head, RemoveControls(s[1..]), b);
      RemoveControlsKeeps(s[1..], b);
    }
  }

  /**
   * `add_default_scheme_if_needed`: `http://` is put in front exactly when
   * the text does not start with `[a-zA-Z][a-zA-Z0-9+.-]*:`, the same
   * scheme syntax the splitter recognises; afterwards there always is one.
   */
  function AddDefaultSchemeIfNeeded(s: Bytes): (r: Bytes)
    ensures UrlSplit.SchemeLength(s).Some? ==> r == s
    ensures UrlSplit.SchemeLength(s).None? ==> r == HTTP_PREFIX + s
    ensures UrlSplit.SchemeLength(r).Some?
  {
    if UrlSplit.SchemeLength(s).Some? then s
    else
      SchemeLengthOfHttp(HTTP, [SLASH, SLASH] + s);
      assert HTTP_PREFIX + s == HTTP + [COLON] + ([SLASH, SLASH] + s);
      HTTP_PREFIX + s
  }

  /** `http` and `https` are scheme-shaped, so a URL starting with either followed by `:` has a scheme. */
  lemma SchemeLengthOfHttp(scheme: Bytes, rest: Bytes)
    requires scheme == HTTP || scheme == HTTPS
    ensures UrlSplit.SchemeLength(scheme + [COLON] + rest) == Some(|scheme|)
  {
    assert UrlSplit.SchemeShaped(scheme) by {
      assert forall i | 0 <= i < |scheme| :: UrlSplit.IsSchemeByte(scheme[i]);
    }
    UrlSplit.SchemeLengthComplete(scheme, rest);
  }

  /** The bytes of `http`, `http://` and `https://`. */
  const HTTP: Bytes := [104, 116, 116, 112]
  const HTTPS: Bytes := [104, 116, 116, 112, 115]
  const HTTP_PREFIX: Bytes := [104, 116, 116, 112, 58, 47, 47]
  const HTTPS_PREFIX: Bytes := [104, 116, 116, 112, 115, 58, 47, 47]

  /** Length of an `https?://` at the start of `s`, 0 when there is none. */
  function HttpPrefixLength(s: Bytes): (n: nat)
    ensures n == 0 || n == 7 || n == 8
    ensures n <= |s|
  {
    if StartsWith(s, HTTP_PREFIX) then 7
    else if StartsWith(s, HTTPS_PREFIX) then 8
    else 0
  }

  /** `(https?://)*` spanning all of `t`. */
  predicate PrefixRun(t: Bytes)
    decreases |t|
  {
    |t| == 0 || (HttpPrefixLength(t) > 0 && PrefixRun(t[HttpPrefixLength(t)..]))
  }

  /** One protocol prefix followed by a run is a run. */
  lemma PrefixRunCons(p: Bytes, y: Bytes)
    requires p == HTTP_PREFIX || p == HTTPS_PREFIX
    requires PrefixRun(y)
    ensures PrefixRun(p + y)
  {
    var t := p + y;
    assert t[..|p|] == p;
    if p == HTTPS_PREFIX {
      assert t[4] != HTTP_PREFIX[4];
    }
    assert HttpPrefixLength(t) == |p|;
    assert t[|p|..] == y;
  }

  /**
   * The replacement of `^(https?://)+` by its last repetition: a leading
   * run of `http://`/`https://` prefixes is cut down to the last one. The
   * result is a suffix of the input, keeps a prefix exactly when the input
   * had one, and that prefix is not followed by another.
   */
  function CollapseProtocols(s: Bytes): (r: Bytes)
    ensures |r| <= |s| && r == s[|s| - |r|..]
    ensures HttpPrefixLength(r) > 0 <==> HttpPrefixLength(s) > 0
    ensures HttpPrefixLength(r) > 0 ==> HttpPrefixLength(r[HttpPrefixLength(r)..]) == 0
    ensures HttpPrefixLength(s) == 0 ==> r == s
    decreases |s|
  {
    var n := HttpPrefixLength(s);
    if n > 0 && HttpPrefixLength(s[n..]) > 0 then CollapseProtocols(s[n..]) else s
  }

  /** What the collapse cuts off is a whole run of protocol prefixes. */
  lemma {:induction false} CollapseCutsRun(s: Bytes)
    ensures PrefixRun(s[..|s| - |CollapseProtocols(s)|])
    decreases |s|
  {
    var r := CollapseProtocols(s);
    var n := HttpPrefixLength(s);
    if n > 0 && HttpPrefixLength(s[n..]) > 0 {
      var t := s[n..];
      assert r == CollapseProtocols(t);
      CollapseCutsRun(t);
      assert s[..n] == HTTP_PREFIX || s[..n] == HTTPS_PREFIX;
      RunExtend(s, n, |s| - |r|);
    } else {
      assert r == s;
      assert s[..|s| - |r|] == [];
    }
  }

  /** A protocol prefix in front of a run cut from the rest is a run. */
  lemma RunExtend(s: Bytes, n: nat, m: nat)
    requires n <= m <= |s|
    requires s[..n] == HTTP_PREFIX || s[..n] == HTTPS_PREFIX
    requires PrefixRun(s[n..][..m - n])
    ensures PrefixRun(s[..m])
  {
    assert s[n..][..m - n] == s[n..m];
    assert s[..m] == s[..n] + s[n..m];
    PrefixRunCons(s[..n], s[n..m]);
  }

  /**
   * `"http://https://order.1and1.com"` becomes `"https://order.1and1.com"`:
   * of two prefixes the second one stays.
   */
  lemma CollapseKeepsLast(first: Bytes, second: Bytes, rest: Bytes)
    requires first == HTTP_PREFIX || first == HTTPS_PREFIX
    requires second == HTTP_PREFIX || second == HTTPS_PREFIX
    requires HttpPrefixLength(rest) == 0
    ensures CollapseProtocols(first + second + rest) == second + rest
  {
    var s := first + second + rest;
    assert s == first + (second + rest);
    var t := second + rest;
    assert t[..|second|] == second;
    if second == HTTPS_PREFIX {
      assert t[4] != HTTP_PREFIX[4];
    }
    assert s[..|first|] == first;
    if first == HTTPS_PREFIX {
      assert s[4] != HTTP_PREFIX[4];
    }
    assert HttpPrefixLength(s) == |first|;
    assert s[|first|..] == t;
    assert HttpPrefixLength(t) == |second|;
    assert t[|second|..] == rest;
  }

  /**
   * The text `parse` splits: trimmed, control bytes deleted, default
   * scheme added, protocols collapsed. It always starts with a scheme and
   * holds no `\n`, `\r` or `\t`.
   */
  function Clean(raw: Bytes): (url: Bytes)
    ensures UrlSplit.SchemeLength(url).Some?
    ensures TAB !in url && LF !in url && CR !in url
  {
    var u := RemoveControls(Trim(raw));
    var s := AddDefaultSchemeIfNeeded(u);
    assert TAB !in s && LF !in s && CR !in s by {
      if s != u {
        assert s == HTTP_PREFIX + u;
      }
    }
    var r := CollapseProtocols(s);
    if HttpPrefixLength(r) > 0 then
      PrefixedHasScheme(r);
      r
    else r
  }

  /** A text starting with `http://` or `https://` starts with a scheme. */
  lemma PrefixedHasScheme(r: Bytes)
    requires HttpPrefixLength(r) > 0
    ensures UrlSplit.SchemeLength(r).Some?
  {
    var scheme := if HttpPrefixLength(r) == 7 then HTTP else HTTPS;
    assert r[..|scheme| + 1] == scheme + [COLON];
    assert r == scheme + [COLON] + r[|scheme| + 1..];
    SchemeLengthOfHttp(scheme, r[|scheme| + 1..]);
  }

  // ---------------------------------------------------------------------
  // parse
  // ---------------------------------------------------------------------

  /**
   * The record built from the cleaned text and its split: host and port
   * come from the authority, the credentials are left out, and a trailing
   * `?` with no query is remembered as the last delimiter.
   */
  function Record(url: Bytes, split: UrlSplit.SplitResult): HandyUrl
  {
    var (host, port) := if split.netloc.Some? then UrlSplit.SplitNetloc(split.netloc.value) else (None, None);
    var lastDelimiter := if split.query.None? && EndsWith(url, [QUESTION]) then Some([QUESTION]) else None;
    HandyUrl(split.scheme, None, None, host, port, split.path, split.query, split.fragment, lastDelimiter)
  }

  /**
   * What `parse` returns for a raw URL. It never fails: cleaning deletes
   * every line feed, the only byte the splitter can fail on, and always
   * leaves a scheme in front, so the record always has one. The
   * credentials are never filled in.
   */
  function Parsed(rawUrl: Bytes): (r: Result<HandyUrl>)
    ensures r.Ok? && r.value.scheme.Some?
    ensures r.value.authUser.None? && r.value.authPass.None?
  {
    var url := Clean(rawUrl);
    UrlSplit.ParseNeverFails(url);
    UrlSplit.ParseScheme(url);
    match UrlSplit.Parse(url)
    case Err(e) => Err(e)
    case Ok(split) => Ok(Record(url, split))
  }

  /** `HandyUrl::parse`: four cleaning steps, the split, then the record. */
  method Parse(rawUrl: Bytes) returns (r: Result<HandyUrl>)
    ensures r == Parsed(rawUrl)
  {
    var url := Trim(rawUrl);
    url := RemoveControls(url);
    url := AddDefaultSchemeIfNeeded(url);
    url := CollapseProtocols(url);
    var split := UrlSplit.Parse(url);
    if split.Err? {
      return Err(split.error);
    }
    var lastDelimiter: Option<Bytes> := None;
    if split.value.query.None? && EndsWith(url, [QUESTION]) {
      lastDelimiter := Some([QUESTION]);
    }
    var host: Option<Bytes>, port: Option<Bytes> := None, None;
    if split.value.netloc.Some? {
      var hostPort := UrlSplit.SplitNetloc(split.value.netloc.value);
      host, port := hostPort.0, hostPort.1;
    }
    r := Ok(HandyUrl(split.value.scheme, None, None, host, port, split.value.path,
                     split.value.query, split.value.fragment, lastDelimiter));
  }

  /**
   * The last delimiter is `?` exactly when the split found no query and
   * the cleaned text ends with `?`; otherwise it is absent.
   */
  lemma ParsedLastDelimiter(rawUrl: Bytes)
    requires Parsed(rawUrl).Ok?
    ensures Parsed(rawUrl).value.lastDelimiter.Some?
      <==> Parsed(rawUrl).value.query.None? && EndsWith(Clean(rawUrl), [QUESTION])
    ensures Parsed(rawUrl).value.lastDelimiter.Some? ==> Parsed(rawUrl).value.lastDelimiter.value == [QUESTION]
  {
  }

  // ---------------------------------------------------------------------
  // get_url
  // ---------------------------------------------------------------------

  /** The bytes of `dns`, the one scheme written without `//`. */
  const DNS: Bytes := [100, 110, 115]

  function WithScheme(m: OptionMap): bool { ValueOr(m, "with_scheme", true) }
  function SurtOn(m: OptionMap): bool { ValueOr(m, "surt", false) }

  /**
   * The host `get_url` writes: the registered domain the public-suffix
   * lookup gives when `public_suffix` is on (which may be none), then in
   * SURT form when `surt` is on.
   */
  function HostSource(u: HandyUrl, m: OptionMap, publicSuffix: Bytes -> Option<Bytes>): Option<Bytes>
  {
    var h := if ValueOr(m, "public_suffix", false) && u.host.Some? then publicSuffix(u.host.value) else u.host;
    if SurtOn(m) && h.Some? then Some(RegexTransformer.HostToSurt(h.value, ValueOr(m, "reverse_ipaddr", true)))
    else h
  }

  /**
   * The scheme section: `scheme:` when `with_scheme` is on, followed, when
   * a host follows, by `//` (not for `dns`) and by `(` in SURT form; only
   * `scheme:` when `with_scheme` is off and there is no host; nothing when
   * it is off and there is a host. A scheme that is needed but missing is
   * an error.
   */
  function SchemeText(scheme: Option<Bytes>, m: OptionMap, hasHost: bool): Result<Bytes>
  {
    if WithScheme(m) then
      if scheme.None? then Err(NoSchemeFoundError)
      else
        var slashes := if hasHost && scheme.value != DNS then [SLASH, SLASH] else [];
        var open := if hasHost && SurtOn(m) then [LPAREN] else [];
        Ok(scheme.value + [COLON] + slashes + open)
    else if !hasHost then
      if scheme.None? then Err(NoSchemeFoundError) else Ok(scheme.value + [COLON])
    else Ok([])
  }

  /**
   * The host section: user and password run together and closed by `@`,
   * the host, `:port`, then in SURT form `,` (with `trailing_comma`) and `)`.
   */
  function HostText(u: HandyUrl, m: OptionMap, host: Bytes): Bytes
  {
    var auth := if u.authUser.Some? then
        u.authUser.value + (if u.authPass.Some? then u.authPass.value else []) + [AT]
      else [];
    var port := if u.port.Some? then [COLON] + u.port.value else [];
    var close := if SurtOn(m) then (if ValueOr(m, "trailing_comma", false) then [COMMA] else []) + [RPAREN] else [];
    auth + host + port + close
  }

  /**
   * The tail: the path (or `/` when there is none but a query or a hash
   * follows), `?query`, `#hash`, then the last delimiter.
   */
  function TailText(u: HandyUrl): Bytes
  {
    var path := if u.path.Some? then u.path.value else if u.query.Some? || u.hash.Some? then [SLASH] else [];
    path + UrlSplit.QueryPart(u.query) + UrlSplit.FragmentPart(u.hash)
      + (if u.lastDelimiter.Some? then u.lastDelimiter.value else [])
  }

  /**
   * What `get_url` returns: the three sections in order, or the
   * missing-scheme error. It fails exactly when there is no scheme and
   * either `with_scheme` is on or no host is left to write.
   */
  function Rendered(u: HandyUrl, m: OptionMap, publicSuffix: Bytes -> Option<Bytes>): (r: Result<Bytes>)
    ensures r.Err? <==> u.scheme.None? && (WithScheme(m) || HostSource(u, m, publicSuffix).None?)
    ensures r.Err? ==> r.error == NoSchemeFoundError
  {
    var host := HostSource(u, m, publicSuffix);
    match SchemeText(u.scheme, m, host.Some?)
    case Err(e) => Err(e)
    case Ok(schemeText) =>
      Ok(schemeText + (if host.Some? then HostText(u, m, host.value) else []) + TailText(u))
  }

  /** `Vec::join("")`: the parts written one after another. */
  function Concat(parts: seq<Bytes>): Bytes
  {
    if |parts| == 0 then [] else Concat(parts[..|parts| - 1]) + parts[|parts| - 1]
  }

  /** `Vec::push`: the part goes last, and the joined text grows by it. */
  method Push(parts: seq<Bytes>, part: Bytes) returns (r: seq<Bytes>)
    ensures r == parts + [part]
    ensures Concat(r) == Concat(parts) + part
  {
    r := parts + [part];
    assert r[..|parts|] == parts;
  }

  /** The host section of `get_url`, appended to `output`. */
  method AppendHost(output: Bytes, u: HandyUrl, options: SurtrOptions, host: Bytes) returns (r: Bytes)
    ensures r == output + HostText(u, options.options, host)
  {
    r := output;
    ghost var auth: Bytes := [];
    if u.authUser.Some? {
      r := r + u.authUser.value;
      if u.authPass.Some? {
        r := r + u.authPass.value;
      }
      r := r + [AT];
      auth := u.authUser.value + (if u.authPass.Some? then u.authPass.value else []) + [AT];
    }
    assert r == output + auth;
    r := r + host;
    AppendAssoc(output, auth, host);
    ghost var port: Bytes := [];
    if u.port.Some? {
      r := r + [COLON] + u.port.value;
      port := [COLON] + u.port.value;
      AppendAssoc(output + auth + host, [COLON], u.port.value);
    }
    AppendAssoc(output, auth + host, port);
    ghost var close: Bytes := [];
    if options.GetOr("surt", false) {
      if options.GetOr("trailing_comma", false) {
        r := r + [COMMA];
      }
      r := r + [RPAREN];
      close := (if options.GetOr("trailing_comma", false) then [COMMA] else []) + [RPAREN];
    }
    AppendAssoc(output, auth + host + port, close);
  }

  /** The tail of `get_url`, appended to `output`. */
  method AppendTail(output: Bytes, u: HandyUrl) returns (r: Bytes)
    ensures r == output + TailText(u)
  {
    r := output;
    ghost var path: Bytes := [];
    if u.path.Some? {
      r := r + u.path.value;
      path := u.path.value;
    } else if u.query.Some? || u.hash.Some? {
      r := r + [SLASH];
      path := [SLASH];
    }
    assert r == output + path;
    var query := UrlSplit.QueryPart(u.query);
    if u.query.Some? {
      r := r + [QUESTION] + u.query.value;
      AppendAssoc(output + path, [QUESTION], u.query.value);
    }
    AppendAssoc(output, path, query);
    var hash := UrlSplit.FragmentPart(u.hash);
    if u.hash.Some? {
      r := r + [HASH] + u.hash.value;
      AppendAssoc(output + path + query, [HASH], u.hash.value);
    }
    AppendAssoc(output, path + query, hash);
    ghost var last: Bytes := [];
    if u.lastDelimiter.Some? {
      r := r + u.lastDelimiter.value;
      last := u.lastDelimiter.value;
    }
    AppendAssoc(output, path + query + hash, last);
  }

  /**
   * The scheme parts of `get_url`, or the missing-scheme error with which
   * it returns early.
   */
  method CollectSchemeParts(scheme: Option<Bytes>, options: SurtrOptions, hasHost: bool) returns (r: Result<seq<Bytes>>)
    ensures r.Err? <==> SchemeText(scheme, options.options, hasHost).Err?
    ensures r.Err? ==> r.error == NoSchemeFoundError
    ensures r.Ok? ==> Concat(r.value) == SchemeText(scheme, options.options, hasHost).value
  {
    var parts: seq<Bytes> := [];
    if options.GetOr("with_scheme", true) {
      if scheme.None? {
        return Err(NoSchemeFoundError);
      }
      parts := Push(parts, scheme.value);
      assert Concat(parts) == scheme.value;
      parts := Push(parts, [COLON]);
      ghost var slashes: Bytes := [];
      if hasHost {
        if parts[0] != DNS {
          parts := Push(parts, [SLASH, SLASH]);
          slashes := [SLASH, SLASH];
        }
      }
      assert Concat(parts) == scheme.value + [COLON] + slashes;
      if hasHost {
        if options.GetOr("surt", false) {
          parts := Push(parts, [LPAREN]);
        }
      }
    } else if !hasHost {
      if scheme.None? {
        return Err(NoSchemeFoundError);
      }
      parts := Push(parts, scheme.value);
      assert Concat(parts) == scheme.value;
      parts := Push(parts, [COLON]);
    } else {
      parts := Push(parts, []);
    }
    return Ok(parts);
  }

  /**
   * `HandyUrl::get_url`: collects the scheme parts, joins them, then grows
   * the output with the host section and the tail.
   */
  method GetUrl(u: HandyUrl, options: SurtrOptions, publicSuffix: Bytes -> Option<Bytes>) returns (r: Result<Bytes>)
    ensures r == Rendered(u, options.options, publicSuffix)
  {
    var m := options.options;
    var hostSrc := u.host;
    if options.GetOr("public_suffix", false) && hostSrc.Some? {
      hostSrc := publicSuffix(u.host.value);
    }
    if options.GetOr("surt", false) {
      if hostSrc.Some? {
        hostSrc := Some(RegexTransformer.HostToSurt(hostSrc.value, options.GetOr("reverse_ipaddr", true)));
      }
    }
    assert hostSrc == HostSource(u, m, publicSuffix);

    var schemeParts := CollectSchemeParts(u.scheme, options, hostSrc.Some?);
    if schemeParts.Err? {
      return Err(schemeParts.error);
    }
    var output := Concat(schemeParts.value);
    ghost var schemeText := SchemeText(u.scheme, m, hostSrc.Some?).value;
    ghost var hostText: Bytes := [];
    if hostSrc.Some? {
      output := AppendHost(output, u, options, hostSrc.value);
      hostText := HostText(u, m, hostSrc.value);
    }
    assert output == schemeText + hostText;
    output := AppendTail(output, u);
    return Ok(output);
  }

  // ---------------------------------------------------------------------
  // parse followed by get_url
  // ---------------------------------------------------------------------

  /** An authority `host` or `host:port` as written in a URL. */
  function Netloc(host: Bytes, port: Option<Bytes>): Bytes
  {
    if port.Some? then host + [COLON] + port.value else host
  }

  /** The bytes an authority part may not hold: `/`, `?`, `#`, `:`, and white space. */
  predicate AuthorityText(s: Bytes)
  {
    |s| > 0 && forall i | 0 <= i < |s| :: s[i] !in {SLASH, QUESTION, HASH, COLON} && !IsSpace(s[i])
  }

  /** A path that is empty or starts with `/`, with neither `?` nor `#` nor white space. */
  predicate PathText(s: Bytes)
  {
    (|s| > 0 ==> s[0] == SLASH) && forall i | 0 <= i < |s| :: s[i] !in {QUESTION, HASH} && !IsSpace(s[i])
  }

  /** A query with neither `#` nor white space. */
  predicate QueryText(s: Bytes)
  {
    forall i | 0 <= i < |s| :: s[i] != HASH && !IsSpace(s[i])
  }

  /** A fragment without white space that does not end with `?`. */
  predicate FragmentText(s: Bytes)
  {
    NoSpace(s) && !EndsWith(s, [QUESTION])
  }

  /**
   * No `http://` or `https://` starts at an authority: its host holds no
   * `:`, a port holds no `/`, and what follows starts with `/`, `?` or `#`.
   */
  lemma NetlocNotPrefixed(host: Bytes, port: Option<Bytes>, t: Bytes)
    requires AuthorityText(host)
    requires port.Some? ==> AuthorityText(port.value)
    requires |t| > 0 ==> t[0] in {SLASH, QUESTION, HASH}
    ensures HttpPrefixLength(Netloc(host, port) + t) == 0
  {
    var n := Netloc(host, port);
    var x := n + t;
    var h := |host|;
    assert forall i | 0 <= i < h :: x[i] == host[i];
    assert h < |x| ==> x[h] == COLON || x[h] in {SLASH, QUESTION, HASH};
    assert port.Some? && h + 1 < |x| ==> x[h] == COLON && x[h + 1] == port.value[0];
    if h >= 6 {
      assert x[4] != COLON && x[5] != COLON;
    } else if h == 5 {
      assert x[4] != COLON;
      assert 6 < |x| ==> x[5] != COLON || x[6] != SLASH;
    } else if h == 4 {
      assert 4 < |x| ==> x[4] != HTTPS_PREFIX[4];
      assert 5 < |x| ==> x[4] != COLON || x[5] != SLASH;
    } else {
      assert h < |x| ==> x[h] != HTTP_PREFIX[h];
    }
  }

  /** The URL `scheme://host[:port]` + path + `?query` + `#fragment`. */
  function PlainUrl(scheme: Bytes, host: Bytes, port: Option<Bytes>, path: Bytes,
                    query: Option<Bytes>, fragment: Option<Bytes>): Bytes
  {
    UrlSplit.Unsplit(scheme, Netloc(host, port), path, query, fragment)
  }

  /** Scheme bytes are never white space. */
  lemma SchemeHasNoSpace(scheme: Bytes)
    requires UrlSplit.SchemeShaped(scheme)
    ensures NoSpace(scheme) && COLON !in scheme
  {
    assert forall i | 0 <= i < |scheme| :: UrlSplit.IsSchemeByte(scheme[i]);
  }

  /**
   * Behind a scheme, an `http://` or `https://` can only be the scheme
   * itself followed by `//`.
   */
  lemma PrefixIsScheme(scheme: Bytes, rest: Bytes)
    requires UrlSplit.SchemeShaped(scheme)
    ensures var n := HttpPrefixLength(scheme + [COLON] + rest);
      n == 0 || n == |scheme| + 3
  {
    var url := scheme + [COLON] + rest;
    SchemeHasNoSpace(scheme);
    assert url[|scheme|] == COLON;
    assert forall i | 0 <= i < |scheme| :: url[i] == scheme[i] && url[i] != COLON;
    if |scheme| < 4 {
      assert url[|scheme|] != HTTP_PREFIX[|scheme|];
      assert url[|scheme|] != HTTPS_PREFIX[|scheme|];
    } else if |scheme| == 4 {
      assert url[4] != HTTPS_PREFIX[4];
    } else {
      assert url[4] != HTTP_PREFIX[4];
      assert |scheme| > 5 ==> url[5] != HTTPS_PREFIX[5];
    }
  }

  lemma NoSpaceConcat(a: Bytes, b: Bytes)
    requires NoSpace(a) && NoSpace(b)
    ensures NoSpace(a + b)
  {
    assert forall i | 0 <= i < |a + b| :: (a + b)[i] == if i < |a| then a[i] else b[i - |a|];
  }

  /**
   * Cleaning changes nothing in a text with no white space that starts
   * with a scheme and does not start with two protocol prefixes.
   */
  lemma CleanKeeps(url: Bytes)
    requires NoSpace(url) && UrlSplit.SchemeLength(url).Some?
    requires HttpPrefixLength(url) == 0 || HttpPrefixLength(url[HttpPrefixLength(url)..]) == 0
    ensures Clean(url) == url
  {
    TrimKeeps(url);
    RemoveNothing(url, ControlBytes);
  }

  /**
   * The pieces of a full URL: `scheme:` then `//`, the authority and the
   * tail, none of which holds white space.
   */
  lemma PlainUrlParts(scheme: Bytes, host: Bytes, port: Option<Bytes>, path: Bytes,
                      query: Option<Bytes>, fragment: Option<Bytes>) returns (rest: Bytes, tail: Bytes)
    requires UrlSplit.SchemeShaped(scheme)
    requires AuthorityText(host) && (port.Some? ==> AuthorityText(port.value))
    requires PathText(path)
    requires query.Some? ==> QueryText(query.value)
    requires fragment.Some? ==> NoSpace(fragment.value)
    ensures PlainUrl(scheme, host, port, path, query, fragment) == scheme + [COLON] + rest
    ensures NoSpace(scheme + [COLON] + rest)
    ensures rest == [SLASH, SLASH] + (Netloc(host, port) + tail)
    ensures |tail| > 0 ==> tail[0] in {SLASH, QUESTION, HASH}
  {
    var netloc := Netloc(host, port);
    var qs := UrlSplit.QueryPart(query);
    var fs := UrlSplit.FragmentPart(fragment);
    rest := [SLASH, SLASH] + netloc + path + qs + fs;
    tail := path + qs + fs;
    assert NoSpace(netloc) && NoSpace(path) && NoSpace(qs) && NoSpace(fs);
    NoSpaceConcat([SLASH, SLASH], netloc);
    NoSpaceConcat([SLASH, SLASH] + netloc, path);
    NoSpaceConcat([SLASH, SLASH] + netloc + path, qs);
    NoSpaceConcat([SLASH, SLASH] + netloc + path + qs, fs);
    SchemeHasNoSpace(scheme);
    NoSpaceConcat(scheme, [COLON]);
    NoSpaceConcat(scheme + [COLON], rest);
    AppendAssoc([SLASH, SLASH] + netloc, path, qs);
    AppendAssoc([SLASH, SLASH] + netloc, path + qs, fs);
    AppendAssoc([SLASH, SLASH], netloc, tail);
  }

  /** A URL written in full with no white space is left alone by the cleaning. */
  lemma PlainUrlClean(scheme: Bytes, host: Bytes, port: Option<Bytes>, path: Bytes,
                      query: Option<Bytes>, fragment: Option<Bytes>)
    requires UrlSplit.SchemeShaped(scheme)
    requires AuthorityText(host) && (port.Some? ==> AuthorityText(port.value))
    requires PathText(path)
    requires query.Some? ==> QueryText(query.value)
    requires fragment.Some? ==> NoSpace(fragment.value)
    ensures Clean(PlainUrl(scheme, host, port, path, query, fragment)) == PlainUrl(scheme, host, port, path, query, fragment)
  {
    var rest, tail := PlainUrlParts(scheme, host, port, path, query, fragment);
    var url := scheme + [COLON] + rest;
    UrlSplit.SchemeLengthComplete(scheme, rest);
    PrefixIsScheme(scheme, rest);
    var n := HttpPrefixLength(url);
    if n > 0 {
      assert url[n..] == Netloc(host, port) + tail;
      NetlocNotPrefixed(host, port, tail);
    }
    CleanKeeps(url);
  }

  lemma NoSpaceNoLineFeed(s: Bytes)
    requires NoSpace(s)
    ensures LF !in s
  {
    assert IsSpace(LF);
  }

  /** An authority holds no `/`, `?` or `#`, and `split_netloc` gives back its host and port. */
  lemma NetlocSplits(host: Bytes, port: Option<Bytes>)
    requires AuthorityText(host) && (port.Some? ==> AuthorityText(port.value))
    ensures var netloc := Netloc(host, port);
      |netloc| > 0 && SLASH !in netloc && QUESTION !in netloc && HASH !in netloc
    ensures UrlSplit.SplitNetloc(Netloc(host, port)) == (Some(host), port)
  {
    if port.Some? {
      UrlSplit.SplitNetlocRoundTrip(host, port.value);
    } else {
      UrlSplit.SplitNetlocNoPort(host);
    }
  }

  /** The query `parse` records for a written query: absent when empty. */
  function SplitQuery(query: Option<Bytes>): Option<Bytes>
  {
    if query.Some? then UrlSplit.NonEmpty(query.value) else None
  }

  /**
   * A full URL with no query recorded ends with `?` exactly when it was
   * written with an empty query and no fragment.
   */
  lemma PlainUrlEndsWithQuestion(scheme: Bytes, host: Bytes, port: Option<Bytes>, path: Bytes,
                                 query: Option<Bytes>, fragment: Option<Bytes>)
    requires AuthorityText(host) && (port.Some? ==> AuthorityText(port.value))
    requires PathText(path)
    requires fragment.Some? ==> FragmentText(fragment.value)
    ensures var url := PlainUrl(scheme, host, port, path, query, fragment);
      SplitQuery(query).None? && EndsWith(url, [QUESTION]) <==> query == Some([]) && fragment.None?
  {
    var url := PlainUrl(scheme, host, port, path, query, fragment);
    var netloc := Netloc(host, port);
    var last := |url| - 1;
    if fragment.Some? {
      var f := fragment.value;
      if |f| == 0 {
        assert url[last] == HASH;
      } else {
        assert url[last] == f[|f| - 1];
        assert f[|f| - 1..] == [f[|f| - 1]];
      }
    } else if query.Some? {
      var qv := query.value;
      if |qv| == 0 {
        assert url[last] == QUESTION;
      }
    } else if |path| > 0 {
      assert url[last] == path[|path| - 1];
    } else {
      assert url[last] == netloc[|netloc| - 1];
      assert port.Some? ==> netloc[|netloc| - 1] == port.value[|port.value| - 1];
    }
  }

  /**
   * `parse` of a URL written in full: every part comes back, an empty
   * path or query is absent, and an empty query with nothing after it
   * leaves `?` as the last delimiter.
   */
  lemma ParsedPlainUrl(scheme: Bytes, host: Bytes, port: Option<Bytes>, path: Bytes,
                       query: Option<Bytes>, fragment: Option<Bytes>)
    requires UrlSplit.SchemeShaped(scheme)
    requires AuthorityText(host) && (port.Some? ==> AuthorityText(port.value))
    requires PathText(path)
    requires query.Some? ==> QueryText(query.value)
    requires fragment.Some? ==> FragmentText(fragment.value)
    ensures Parsed(PlainUrl(scheme, host, port, path, query, fragment))
      == Ok(HandyUrl(Some(scheme), None, None, Some(host), port, UrlSplit.NonEmpty(path), SplitQuery(query), fragment,
                     if query == Some([]) && fragment.None? then Some([QUESTION]) else None))
  {
    var url := PlainUrl(scheme, host, port, path, query, fragment);
    var netloc := Netloc(host, port);
    PlainUrlClean(scheme, host, port, path, query, fragment);
    NetlocSplits(host, port);
    if fragment.Some? {
      NoSpaceNoLineFeed(fragment.value);
    }
    UrlSplit.ParseUnsplit(scheme, netloc, path, query, fragment);
    var split := UrlSplit.SplitResult(Some(scheme), Some(netloc), UrlSplit.NonEmpty(path), SplitQuery(query), fragment);
    assert UrlSplit.Parse(url) == Ok(split);
    assert Parsed(url) == Ok(Record(url, split));
    PlainUrlEndsWithQuestion(scheme, host, port, path, query, fragment);
  }

  /**
   * With every option at its default, `get_url` writes `scheme:`, then
   * `//` (except for `dns`), the authority and the tail.
   */
  lemma RenderedDefault(u: HandyUrl, publicSuffix: Bytes -> Option<Bytes>)
    requires u.scheme.Some? && u.host.Some? && u.authUser.None?
    ensures Rendered(u, map[], publicSuffix)
      == Ok(u.scheme.value + [COLON] + (if u.scheme.value == DNS then [] else UrlSplit.DOUBLE_SLASH)
            + Netloc(u.host.value, u.port) + TailText(u))
  {
    var m: OptionMap := map[];
    assert HostSource(u, m, publicSuffix) == u.host;
    var slashes: Bytes := if u.scheme.value == DNS then [] else [SLASH, SLASH];
    var schemeText := u.scheme.value + [COLON] + slashes;
    assert SchemeText(u.scheme, m, true) == Ok(schemeText + []);
    assert schemeText + [] == schemeText;
    assert HostText(u, m, u.host.value) == [] + u.host.value + (if u.port.Some? then [COLON] + u.port.value else []) + [];
    assert HostText(u, m, u.host.value) == Netloc(u.host.value, u.port);
  }

  /**
   * The tail `get_url` writes for a parsed full URL: the path, query and
   * fragment as written, except that a `/` is put in front of a query or
   * fragment that follows an empty path, and a `?` with nothing after it
   * is dropped when a fragment follows.
   */
  lemma TailOfPlainUrl(scheme: Bytes, host: Bytes, port: Option<Bytes>, path: Bytes,
                       query: Option<Bytes>, fragment: Option<Bytes>)
    requires UrlSplit.SchemeShaped(scheme)
    requires AuthorityText(host) && (port.Some? ==> AuthorityText(port.value))
    requires PathText(path)
    requires query.Some? ==> QueryText(query.value)
    requires fragment.Some? ==> FragmentText(fragment.value)
    ensures Parsed(PlainUrl(scheme, host, port, path, query, fragment)).Ok?
    ensures TailText(Parsed(PlainUrl(scheme, host, port, path, query, fragment)).value)
      == (if |path| == 0 && (SplitQuery(query).Some? || fragment.Some?) then [SLASH] else path)
         + (if query == Some([]) && fragment.Some? then [] else UrlSplit.QueryPart(query))
         + UrlSplit.FragmentPart(fragment)
  {
    ParsedPlainUrl(scheme, host, port, path, query, fragment);
    TailOfRecord(Parsed(PlainUrl(scheme, host, port, path, query, fragment)).value, path, query, fragment);
  }

  /** The tail of a record whose parts are those of a URL written in full. */
  lemma TailOfRecord(u: HandyUrl, path: Bytes, query: Option<Bytes>, fragment: Option<Bytes>)
    requires u.path == UrlSplit.NonEmpty(path) && u.query == SplitQuery(query) && u.hash == fragment
    requires u.lastDelimiter == if query == Some([]) && fragment.None? then Some([QUESTION]) else None
    ensures TailText(u)
      == (if |path| == 0 && (SplitQuery(query).Some? || fragment.Some?) then [SLASH] else path)
         + (if query == Some([]) && fragment.Some? then [] else UrlSplit.QueryPart(query))
         + UrlSplit.FragmentPart(fragment)
  {
    var p: Bytes := if |path| == 0 && (SplitQuery(query).Some? || fragment.Some?) then [SLASH] else path;
    if query == Some([]) && fragment.None? {
      assert TailText(u) == p + [] + [] + [QUESTION];
    } else if query == Some([]) {
      assert TailText(u) == p + [] + UrlSplit.FragmentPart(fragment) + [];
    } else {
      assert UrlSplit.QueryPart(u.query) == UrlSplit.QueryPart(query);
      assert TailText(u) == p + UrlSplit.QueryPart(query) + UrlSplit.FragmentPart(fragment) + [];
    }
  }

  /**
   * `parse` then `get_url` with the default options gives back a URL
   * written in full, provided its scheme is not `dns`, a query or
   * fragment is not written behind an empty path, and an empty query is
   * not followed by a fragment.
   */
  lemma ParseRenderRoundTrip(scheme: Bytes, host: Bytes, port: Option<Bytes>, path: Bytes,
                             query: Option<Bytes>, fragment: Option<Bytes>, publicSuffix: Bytes -> Option<Bytes>)
    requires UrlSplit.SchemeShaped(scheme) && scheme != DNS
    requires AuthorityText(host) && (port.Some? ==> AuthorityText(port.value))
    requires PathText(path)
    requires query.Some? ==> QueryText(query.value)
    requires fragment.Some? ==> FragmentText(fragment.value)
    requires |path| == 0 ==> SplitQuery(query).None? && fragment.None?
    requires query == Some([]) ==> fragment.None?
    ensures Parsed(PlainUrl(scheme, host, port, path, query, fragment)).Ok?
    ensures Rendered(Parsed(PlainUrl(scheme, host, port, path, query, fragment)).value, map[], publicSuffix)
      == Ok(PlainUrl(scheme, host, port, path, query, fragment))
  {
    ParsedPlainUrl(scheme, host, port, path, query, fragment);
    TailOfPlainUrl(scheme, host, port, path, query, fragment);
    var u := Parsed(PlainUrl(scheme, host, port, path, query, fragment)).value;
    RenderedDefault(u, publicSuffix);
    var netloc := Netloc(host, port);
    var qs := UrlSplit.QueryPart(query);
    var fs := UrlSplit.FragmentPart(fragment);
    assert TailText(u) == path + qs + fs;
    var head := scheme + [COLON];
    calc {
      head + UrlSplit.DOUBLE_SLASH + netloc + (path + qs + fs);
      { AppendAssoc(head + UrlSplit.DOUBLE_SLASH + netloc, path + qs, fs); }
      head + UrlSplit.DOUBLE_SLASH + netloc + (path + qs) + fs;
      { AppendAssoc(head + UrlSplit.DOUBLE_SLASH + netloc, path, qs); }
      head + UrlSplit.DOUBLE_SLASH + netloc + path + qs + fs;
      { SixParts(head, UrlSplit.DOUBLE_SLASH, netloc, path, qs, fs); }
      head + (UrlSplit.DOUBLE_SLASH + netloc + path + qs + fs);
    }
  }

  lemma SixParts(a: Bytes, b: Bytes, c: Bytes, d: Bytes, e: Bytes, f: Bytes)
    ensures a + b + c + d + e + f == a + (b + c + d + e + f)
  {
    AppendAssoc(a, b, c);
    AppendAssoc(a, b + c, d);
    AppendAssoc(a, b + c + d, e);
    AppendAssoc(a, b + c + d + e, f);
  }

  /**
   * In SURT form without the scheme, with the public-suffix lookup and
   * the trailing comma off, `get_url` writes the host in SURT form, the
   * port, `)` and the tail.
   */
  lemma RenderedSurtHost(u: HandyUrl, m: OptionMap, publicSuffix: Bytes -> Option<Bytes>)
    requires SurtOn(m) && !WithScheme(m)
    requires !ValueOr(m, "public_suffix", false) && !ValueOr(m, "trailing_comma", false)
    requires u.host.Some? && u.authUser.None?
    ensures Rendered(u, m, publicSuffix)
      == Ok(RegexTransformer.HostToSurt(u.host.value, ValueOr(m, "reverse_ipaddr", true))
            + ((if u.port.Some? then [COLON] + u.port.value else []) + [RPAREN] + TailText(u)))
  {
    var surt := RegexTransformer.HostToSurt(u.host.value, ValueOr(m, "reverse_ipaddr", true));
    var port: Bytes := if u.port.Some? then [COLON] + u.port.value else [];
    assert HostSource(u, m, publicSuffix) == Some(surt);
    assert SchemeText(u.scheme, m, true) == Ok([]);
    assert HostText(u, m, surt) == [] + surt + port + ([] + [RPAREN]);
    calc {
      [] + ([] + surt + port + ([] + [RPAREN])) + TailText(u);
      surt + port + [RPAREN] + TailText(u);
      { SixParts(surt, port, [RPAREN], TailText(u), [], []); }
      surt + (port + [RPAREN] + TailText(u));
    }
  }

  /**
   * A SURT written without scheme or port keeps the host recoverable: `)`
   * first occurs right after the SURT host, the comma-separated labels
   * before it, reversed and joined with dots, give back the host, and the
   * tail follows the `)`.
   */
  lemma SurtHostRecoverable(u: HandyUrl, m: OptionMap, publicSuffix: Bytes -> Option<Bytes>)
    requires SurtOn(m) && !WithScheme(m)
    requires !ValueOr(m, "public_suffix", false) && !ValueOr(m, "trailing_comma", false)
    requires u.host.Some? && u.authUser.None? && u.port.None?
    requires COMMA !in u.host.value && RPAREN !in u.host.value
    requires ValueOr(m, "reverse_ipaddr", true) || !RegexTransformer.EndsInIpAddress(u.host.value)
    ensures Rendered(u, m, publicSuffix).Ok?
    ensures UrlSplit.FirstOf(Rendered(u, m, publicSuffix).value, {RPAREN}) < |Rendered(u, m, publicSuffix).value|
    ensures Join(Reverse(Split(Rendered(u, m, publicSuffix).value[..UrlSplit.FirstOf(Rendered(u, m, publicSuffix).value, {RPAREN})], COMMA)), DOT)
      == u.host.value
    ensures Rendered(u, m, publicSuffix).value[UrlSplit.FirstOf(Rendered(u, m, publicSuffix).value, {RPAREN}) + 1..]
      == TailText(u)
  {
    var surt := RegexTransformer.HostToSurt(u.host.value, ValueOr(m, "reverse_ipaddr", true));
    RenderedSurtHost(u, m, publicSuffix);
    assert ([] + [RPAREN] + TailText(u)) == [RPAREN] + TailText(u);
    SurtSplitsAtParen(u.host.value, ValueOr(m, "reverse_ipaddr", true), TailText(u));
  }

  /** The first `)` after a host in SURT form is the one that follows it. */
  lemma SurtSplitsAtParen(host: Bytes, reverseIpaddr: bool, tail: Bytes)
    requires COMMA !in host && RPAREN !in host
    requires reverseIpaddr || !RegexTransformer.EndsInIpAddress(host)
    ensures var surt := RegexTransformer.HostToSurt(host, reverseIpaddr);
      UrlSplit.FirstOf(surt + ([RPAREN] + tail), {RPAREN}) == |surt|
    ensures var surt := RegexTransformer.HostToSurt(host, reverseIpaddr);
      Join(Reverse(Split((surt + ([RPAREN] + tail))[..|surt|], COMMA)), DOT) == host
    ensures var surt := RegexTransformer.HostToSurt(host, reverseIpaddr);
      (surt + ([RPAREN] + tail))[|surt| + 1..] == tail
  {
    var surt := RegexTransformer.HostToSurt(host, reverseIpaddr);
    var after := [RPAREN] + tail;
    SurtWithoutParen(host, reverseIpaddr);
    assert forall i | 0 <= i < |surt| :: surt[i] !in {RPAREN};
    RegexTransformer.HostToSurtInverse(host, reverseIpaddr);
    UrlSplit.FirstOfSkip(surt, after, {RPAREN});
    assert (surt + after)[..|surt|] == surt;
    assert (surt + after)[|surt| + 1..] == tail;
  }

  /** A host without `)` keeps none in its SURT form: the labels are only reordered. */
  lemma SurtWithoutParen(host: Bytes, reverseIpaddr: bool)
    requires RPAREN !in host
    requires reverseIpaddr || !RegexTransformer.EndsInIpAddress(host)
    ensures RPAREN !in RegexTransformer.HostToSurt(host, reverseIpaddr)
  {
    var labels := Reverse(Split(host, DOT));
    SplitPiecesWithout(host, DOT, RPAREN);
    assert forall i | 0 <= i < |labels| :: RPAREN !in labels[i] by {
      forall i | 0 <= i < |labels| ensures RPAREN !in labels[i] {
        assert labels[i] == Split(host, DOT)[|labels| - 1 - i];
      }
    }
    JoinWithout(labels, COMMA, RPAREN);
  }

}
